/** Words or sentences of a text that is spread over runs (getSegmenter in
    frontend/public/foliate/tts.js), and the list over a generator that the speech keeps its place in
    (ListIterator in the same file). */
module Segmenter {
  import opened Wrappers

  /** What Intl.Segmenter reports of one segment. */
  datatype Segment = Segment(index: nat, length: nat, isWordLike: bool)

  /** What is yielded: a name, the two ends as run and offset, and the place in the whole text. */
  datatype Mark = Mark(
    name: nat, startIndex: nat, startOffset: nat, endIndex: nat, endOffset: nat, start: nat, end: nat)

  function Length(strs: seq<string>): nat {
    if strs == [] then 0 else Length(strs[..|strs| - 1]) + |strs[|strs| - 1]|
  }

  /** The segments are in order, do not overlap, are not empty and lie in the text. */
  predicate InText(segments: seq<Segment>, length: nat) {
    && (forall k :: 0 <= k < |segments| ==> segments[k].length > 0 && segments[k].index + segments[k].length <= length)
    && forall j, k :: 0 <= j < k < |segments| ==> segments[j].index + segments[j].length <= segments[k].index
  }

  /** The places of the first n segments that are taken: of words only those that are like words, of
      sentences all; each once and in order. */
  ghost predicate AreTaken(segments: seq<Segment>, granularityIsWord: bool, n: nat, taken: seq<nat>)
    requires n <= |segments|
  {
    && (forall k :: 0 <= k < |taken| ==> taken[k] < n)
    && (forall j, k :: 0 <= j < k < |taken| ==> taken[j] < taken[k])
    && forall i :: 0 <= i < n ==> (i in taken <==> (granularityIsWord ==> segments[i].isWordLike))
  }

  lemma OneMoreSegment(segments: seq<Segment>, granularityIsWord: bool, n: nat, taken: seq<nat>)
    requires n < |segments| && AreTaken(segments, granularityIsWord, n, taken)
    ensures var take := granularityIsWord ==> segments[n].isWordLike;
            AreTaken(segments, granularityIsWord, n + 1, if take then taken + [n] else taken)
  {
    var next := taken + [n];
    assert forall i :: i in next <==> i in taken || i == n;
    assert n !in taken;
  }

  /** The pair (run, offset) is the place in the whole text. */
  predicate Maps(strs: seq<string>, run: nat, offset: nat, place: nat) {
    run < |strs| && offset <= |strs[run]| && Length(strs[..run]) + offset == place
  }

  /** A mark says where its segment is: both ends map back to the segment's ends; the start is on a
      character of its run, and the end is behind one. */
  predicate Marks(strs: seq<string>, m: Mark, s: Segment, name: nat) {
    && m.name == name && m.start == s.index && m.end == s.index + s.length
    && Maps(strs, m.startIndex, m.startOffset, s.index) && m.startOffset < |strs[m.startIndex]|
    && Maps(strs, m.endIndex, m.endOffset, s.index + s.length) && m.endOffset > 0
    && m.startIndex <= m.endIndex
  }

  /** The scan's variables: the last run taken in, and the length up to its end. */
  predicate Scanned(strs: seq<string>, strIndex: int, sum: int) {
    -1 <= strIndex < |strs| && sum == Length(strs[..strIndex + 1])
  }

  lemma NextRun(strs: seq<string>, i: nat)
    requires i < |strs|
    ensures Length(strs[..i + 1]) == Length(strs[..i]) + |strs[i]|
  {
    assert strs[..i + 1][..i] == strs[..i];
  }

  lemma MoreRuns(strs: seq<string>, strIndex: int, sum: int, place: nat)
    requires Scanned(strs, strIndex, sum) && sum <= place < Length(strs)
    ensures strIndex + 1 < |strs|
  {
    assert strs[..|strs|] == strs;
  }

  /** Both inner loops: takes in runs until the place is inside the last one. */
  method Scan(strs: seq<string>, strIndex: int, sum: int, place: nat) returns (i: nat, total: int)
    requires Scanned(strs, strIndex, sum) && place < Length(strs)
    requires strIndex >= 0 ==> sum - |strs[strIndex]| <= place
    ensures strIndex <= i < |strs| && Scanned(strs, i, total) && total - |strs[i]| <= place < total
  {
    hide Length;
    var at: int := strIndex;
    total := sum;
    if at == -1 {
      NoRuns(strs);
    }
    while total <= place
      invariant strIndex <= at && Scanned(strs, at, total)
      invariant at >= 0 ==> total - |strs[at]| <= place
      invariant at == -1 ==> total == 0
      decreases |strs| - at
    {
      MoreRuns(strs, at, total, place);
      at := at + 1;
      NextRun(strs, at);
      total := total + |strs[at]|;
    }
    i := at;
  }

  lemma NoRuns(strs: seq<string>)
    ensures Length(strs[..0]) == 0
  {
  }

  /** Every segment that is taken is marked exactly, in order, and no run is asked for beyond the
      last, however many segments are skipped and however many runs are empty. */
  method MarkSegments(strs: seq<string>, segments: seq<Segment>, granularityIsWord: bool)
    returns (out: seq<Mark>, ghost taken: seq<nat>)
    requires InText(segments, Length(strs))
    ensures AreTaken(segments, granularityIsWord, |segments|, taken) && |out| == |taken|
    ensures forall k :: 0 <= k < |out| ==> Marks(strs, out[k], segments[taken[k]], k)
  {
    hide Length, Scanned, Marks, AreTaken, AllMarked, InText;
    out, taken := [], [];
    assert AreTaken(segments, granularityIsWord, 0, []) by { NoneTaken(segments, granularityIsWord); }
    var strIndex, sum := -1, 0;
    assert Scanned(strs, -1, 0) by { StartScan(strs); }
    assert AllMarked(strs, segments, [], []) by { NothingMarked(strs, segments); }
    if segments != [] { SegmentInText(segments, Length(strs), 0); }
    ghost var done: nat := 0;
    for n := 0 to |segments|
      invariant AreTaken(segments, granularityIsWord, n, taken) && |out| == |taken|
      invariant AllMarked(strs, segments, taken, out)
      invariant Scanned(strs, strIndex, sum)
      invariant -1 <= strIndex < |strs| && (strIndex >= 0 ==> sum - |strs[strIndex]| <= done)
      invariant n < |segments| ==> done <= segments[n].index
    {
      var s := segments[n];
      OneMoreSegment(segments, granularityIsWord, n, taken);
      SegmentInText(segments, Length(strs), n);
      if !(granularityIsWord && !s.isWordLike) {
        var startIndex;
        startIndex, sum := Scan(strs, strIndex, sum, s.index);
        var startOffset := s.index - (sum - |strs[startIndex]|);
        var end := s.index + s.length - 1;
        var endIndex, total := Scan(strs, startIndex, sum, end);
        var endOffset := end - (total - |strs[endIndex]|) + 1;
        var mark := Mark(|out|, startIndex, startOffset, endIndex, endOffset, s.index, s.index + s.length);
        MarkIsExact(strs, startIndex, sum, endIndex, total, s, |out|);
        OneMoreMark(strs, segments, taken, out, n, mark);
        out, taken := out + [mark], taken + [n];
        strIndex, sum := endIndex, total;
        done := end;
      }
    }
    MarkedEach(strs, segments, taken, out);
  }

  /** The marks so far are those of the segments taken so far. */
  ghost predicate AllMarked(strs: seq<string>, segments: seq<Segment>, taken: seq<nat>, out: seq<Mark>) {
    && |out| == |taken|
    && forall k :: 0 <= k < |out| ==> taken[k] < |segments| && Marks(strs, out[k], segments[taken[k]], k)
  }

  lemma NothingMarked(strs: seq<string>, segments: seq<Segment>)
    ensures AllMarked(strs, segments, [], [])
  {
  }

  lemma OneMoreMark(strs: seq<string>, segments: seq<Segment>, taken: seq<nat>, out: seq<Mark>, n: nat, m: Mark)
    requires AllMarked(strs, segments, taken, out) && n < |segments| && Marks(strs, m, segments[n], |out|)
    ensures AllMarked(strs, segments, taken + [n], out + [m])
  {
    hide Marks;
  }

  lemma MarkedEach(strs: seq<string>, segments: seq<Segment>, taken: seq<nat>, out: seq<Mark>)
    requires AllMarked(strs, segments, taken, out)
    ensures forall k :: 0 <= k < |out| ==> taken[k] < |segments| && Marks(strs, out[k], segments[taken[k]], k)
  {
    hide Marks;
  }

  lemma SegmentInText(segments: seq<Segment>, length: nat, n: nat)
    requires InText(segments, length) && n < |segments|
    ensures segments[n].length > 0 && segments[n].index + segments[n].length <= length
    ensures n + 1 < |segments| ==> segments[n].index + segments[n].length <= segments[n + 1].index
  {
  }

  lemma NoneTaken(segments: seq<Segment>, granularityIsWord: bool)
    ensures AreTaken(segments, granularityIsWord, 0, [])
  {
  }

  lemma StartScan(strs: seq<string>)
    ensures Scanned(strs, -1, 0)
  {
  }

  lemma MarkIsExact(strs: seq<string>, i: nat, sum: int, j: nat, total: int, s: Segment, name: nat)
    requires Scanned(strs, i, sum) && sum - |strs[i]| <= s.index < sum
    requires s.length > 0 && i <= j
    requires Scanned(strs, j, total) && total - |strs[j]| <= s.index + s.length - 1 < total
    ensures Marks(strs, Mark(name, i, s.index - (sum - |strs[i]|), j,
                             s.index + s.length - 1 - (total - |strs[j]|) + 1, s.index, s.index + s.length), s, name)
  {
    NextRun(strs, i);
    NextRun(strs, j);
  }

  // ---- the list over a generator ----

  /** A list that pulls from its generator only what it needs. */
  class ListIterator<T> {
    /** Everything the generator gives; the list has pulled the first part of it. */
    const all: seq<T>
    var arr: seq<T>
    var index: int

    ghost predicate Valid()
      reads this
    {
      arr <= all && -1 <= index < |arr|
    }

    constructor (generated: seq<T>)
      ensures Valid() && all == generated && index == -1 && arr == []
    {
      all := generated;
      arr, index := [], -1;
    }

    /** One pull from the generator. */
    method Pull() returns (value: Option<T>)
      requires Valid()
      modifies this`arr
      ensures Valid()
      ensures value.Some? <==> |old(arr)| < |all|
      ensures value.Some? ==> value.value == all[|old(arr)|] && arr == old(arr) + [value.value]
      ensures value.None? ==> arr == old(arr)
    {
      if |arr| == |all| {
        return None;
      }
      value := Some(all[|arr|]);
      arr := arr + [all[|arr|]];
    }

    /** The element after the current one of the whole list, if there is one. */
    method Next() returns (r: Option<T>)
      requires Valid()
      modifies this`arr, this`index
      ensures Valid()
      ensures r == if old(index) + 1 < |all| then Some(all[old(index) + 1]) else None
      ensures index == if r.Some? then old(index) + 1 else old(index)
      ensures old(arr) <= arr && (old(index) + 1 < |old(arr)| ==> arr == old(arr))
    {
      var newIndex := index + 1;
      if newIndex < |arr| {
        index := newIndex;
        return Some(arr[newIndex]);
      }
      var value := Pull();
      if value.Some? {
        index := newIndex;
        return Some(arr[newIndex]);
      }
      return None;
    }

    method Prev() returns (r: Option<T>)
      requires Valid()
      modifies this`index
      ensures Valid()
      ensures r == if old(index) > 0 then Some(all[old(index) - 1]) else None
      ensures index == if r.Some? then old(index) - 1 else old(index)
    {
      var newIndex := index - 1;
      if 0 <= newIndex < |arr| {
        index := newIndex;
        return Some(arr[newIndex]);
      }
      return None;
    }

    /** The first element, but only once something has been pulled. */
    method First() returns (r: Option<T>)
      requires Valid()
      modifies this`index
      ensures Valid()
      ensures r == if arr != [] then Some(all[0]) else None
      ensures index == if r.Some? then 0 else old(index)
    {
      if arr != [] {
        index := 0;
        return Some(arr[0]);
      }
      return None;
    }

    /** The element at a distance from the current one of the whole list, if there is one; the place
        stays. */
    method PeekAt(offset: int) returns (r: Option<T>)
      requires Valid()
      modifies this`arr
      ensures Valid() && old(arr) <= arr
      ensures r == if 0 <= index + offset < |all| then Some(all[index + offset]) else None
    {
      var newIndex := index + offset;
      if 0 <= newIndex < |arr| {
        return Some(arr[newIndex]);
      }
      while |arr| <= newIndex
        invariant Valid() && old(arr) <= arr
        decreases |all| - |arr|
      {
        var value := Pull();
        if value.None? {
          break;
        }
      }
      if 0 <= newIndex < |arr| {
        return Some(arr[newIndex]);
      }
      return None;
    }

    /** The first element of the whole list that meets the condition, wherever the place was. */
    method Find(f: T -> bool) returns (r: Option<T>)
      requires Valid()
      modifies this`arr, this`index
      ensures Valid() && old(arr) <= arr
      ensures r.Some? ==>
        && 0 <= index < |all| && r.value == all[index] && f(r.value)
        && forall j :: 0 <= j < index ==> !f(all[j])
      ensures r.None? ==> index == old(index) && forall j :: 0 <= j < |all| ==> !f(all[j])
    {
      for i := 0 to |arr|
        invariant Valid() && arr == old(arr) && index == old(index)
        invariant forall j :: 0 <= j < i ==> !f(arr[j])
      {
        if f(arr[i]) {
          index := i;
          return Some(arr[i]);
        }
      }
      while true
        invariant Valid() && old(arr) <= arr && index == old(index)
        invariant forall j :: 0 <= j < |arr| ==> !f(arr[j])
        decreases |all| - |arr|
      {
        var value := Pull();
        if value.None? {
          return None;
        }
        if f(value.value) {
          index := |arr| - 1;
          return value;
        }
      }
    }
  }
}
