/** The text of a KF8 book as a buffer that grows lazily from both ends (KF8.loadRaw in
    frontend/public/foliate/mobi.js). */
module RawText {
  import opened Wrappers

  type Bytes = seq<bv8>

  /** The records one after the other. */
  function Concat(records: seq<Bytes>): Bytes {
    if records == [] then [] else records[0] + Concat(records[1..])
  }

  lemma {:induction false} ConcatAppend(x: seq<Bytes>, y: seq<Bytes>)
    ensures Concat(x + y) == Concat(x) + Concat(y)
    decreases |x|
  {
    if x == [] {
      assert x + y == y;
    } else {
      assert (x + y)[1..] == x[1..] + y;
      ConcatAppend(x[1..], y);
    }
  }

  /** The records before and from k on are the text. */
  lemma SplitRecords(records: seq<Bytes>, k: nat)
    requires k <= |records|
    ensures Concat(records) == Concat(records[..k]) + Concat(records[k..])
  {
    hide Concat;
    assert records[..k] + records[k..] == records;
    ConcatAppend(records[..k], records[k..]);
  }

  lemma NextRecord(records: seq<Bytes>, k: nat)
    requires k < |records|
    ensures Concat(records[..k + 1]) == Concat(records[..k]) + records[k]
    ensures Concat(records[k..]) == records[k] + Concat(records[k + 1..])
  {
    assert records[..k + 1] == records[..k] + [records[k]];
    ConcatAppend(records[..k], [records[k]]);
    assert [records[k]][1..] == [] && Concat([]) == [];
    assert records[k..][1..] == records[k + 1..];
  }

  class KF8 {
    /** What loadText gives for each text record. */
    const records: seq<Bytes>
    /** The length of the text, when the FDST record could be read. */
    const fullRawLength: Option<nat>
    var rawHead: Bytes
    var rawTail: Bytes
    var lastLoadedHead: int
    var lastLoadedTail: int

    /** The head is the first records, the tail the last ones, each counted by its index. */
    ghost predicate Valid()
      reads this
    {
      && -1 <= lastLoadedHead < |records| && -1 <= lastLoadedTail < |records|
      && rawHead == Concat(records[..lastLoadedHead + 1])
      && rawTail == Concat(records[|records| - 1 - lastLoadedTail..])
    }

    constructor (records: seq<Bytes>, fullRawLength: Option<nat>)
      ensures Valid() && this.records == records && this.fullRawLength == fullRawLength
    {
      this.records, this.fullRawLength := records, fullRawLength;
      rawHead, rawTail, lastLoadedHead, lastLoadedTail := [], [], -1, -1;
    }

    /** The result is the slice of the whole text, whichever end it was read from; the buffers only
        grow, and every record asked for exists. */
    method LoadRaw(start: nat, end: nat) returns (r: Bytes)
      requires Valid() && start <= end <= |Concat(records)|
      requires fullRawLength.Some? ==> fullRawLength.value == |Concat(records)|
      modifies this
      ensures Valid() && r == Concat(records)[start..end]
      ensures old(rawHead) <= rawHead && old(lastLoadedHead) <= lastLoadedHead
      ensures old(lastLoadedTail) <= lastLoadedTail && |old(rawTail)| <= |rawTail|
      ensures rawTail[|rawTail| - |old(rawTail)|..] == old(rawTail)
      ensures lastLoadedHead == old(lastLoadedHead) || lastLoadedTail == old(lastLoadedTail)
    {
      hide Concat;
      var distanceHead := end - |rawHead|;
      var fromHead := distanceHead < 0 || fullRawLength.None?
        || distanceHead < fullRawLength.value - |rawTail| - start;
      if fromHead {
        while |rawHead| < end
          invariant Valid() && lastLoadedTail == old(lastLoadedTail) && rawTail == old(rawTail)
          invariant old(rawHead) <= rawHead && old(lastLoadedHead) <= lastLoadedHead
          decreases |records| - lastLoadedHead
        {
          MoreAtHead(end);
          lastLoadedHead := lastLoadedHead + 1;
          var data := records[lastLoadedHead];
          NextRecord(records, lastLoadedHead);
          rawHead := rawHead + data;
        }
        SplitRecords(records, lastLoadedHead + 1);
        return rawHead[start..end];
      }
      var full := fullRawLength.value;
      while full - |rawTail| > start
        invariant Valid() && lastLoadedHead == old(lastLoadedHead) && rawHead == old(rawHead)
        invariant old(lastLoadedTail) <= lastLoadedTail && |old(rawTail)| <= |rawTail|
        invariant rawTail[|rawTail| - |old(rawTail)|..] == old(rawTail)
        decreases |records| - lastLoadedTail
      {
        MoreAtTail(start);
        lastLoadedTail := lastLoadedTail + 1;
        var index := |records| - 1 - lastLoadedTail;
        var data := records[index];
        NextRecord(records, index);
        rawTail := data + rawTail;
      }
      var rawTailStart := full - |rawTail|;
      TailIsSuffix();
      assert rawTailStart >= 0;
      r := rawTail[start - rawTailStart..end - rawTailStart];
    }

    /** As long as the head is too short there is another record. */
    lemma MoreAtHead(end: nat)
      requires Valid() && |rawHead| < end <= |Concat(records)|
      ensures lastLoadedHead + 1 < |records|
    {
      assert records[..|records|] == records;
    }

    lemma MoreAtTail(start: nat)
      requires Valid() && |Concat(records)| - |rawTail| > start
      ensures lastLoadedTail + 1 < |records|
    {
      assert records[0..] == records;
    }

    lemma TailIsSuffix()
      requires Valid()
      ensures |rawTail| <= |Concat(records)| && Concat(records)[|Concat(records)| - |rawTail|..] == rawTail
    {
      SplitRecords(records, |records| - 1 - lastLoadedTail);
    }
  }
}
