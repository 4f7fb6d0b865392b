/** The caches of synthesized speech (backend/services/tts_cache.go): least recently used in memory,
    oldest modification first on disk. */
module AudioCache {
  import opened Wrappers

  type Bytes = seq<bv8>

  datatype Entry = Entry(key: string, data: Bytes, size: nat, expiresAt: int)

  const DEFAULT_MAX_BYTES: int := 64 * 1024 * 1024
  const DEFAULT_MAX_ITEMS: int := 128
  const DEFAULT_TTL: int := 24 * 60 * 60 * 1_000_000_000

  // ---- the list ----

  /** The place of a key in the list; its length when the key is not there. */
  function PlaceOf(order: seq<Entry>, key: string): (i: nat)
    ensures i <= |order| && (i < |order| ==> order[i].key == key)
    ensures forall j :: 0 <= j < i ==> order[j].key != key
  {
    if order == [] || order[0].key == key then 0 else 1 + PlaceOf(order[1..], key)
  }

  /** The list without the entry of a key. */
  function Without(order: seq<Entry>, key: string): seq<Entry> {
    var i := PlaceOf(order, key);
    if i < |order| then order[..i] + order[i + 1..] else order
  }

  function Total(order: seq<Entry>): nat {
    if order == [] then 0 else order[0].size + Total(order[1..])
  }

  predicate DistinctKeys(order: seq<Entry>) {
    forall i, j :: 0 <= i < j < |order| ==> order[i].key != order[j].key
  }

  function Keys(order: seq<Entry>): set<string> {
    set e <- order :: e.key
  }

  predicate Fits(order: seq<Entry>, maxBytes: int, maxItems: int) {
    Total(order) <= maxBytes && |order| <= maxItems
  }

  /** What eviction from the back leaves. */
  function Fitting(order: seq<Entry>, maxBytes: int, maxItems: int): (kept: seq<Entry>)
    ensures kept <= order
  {
    if order == [] || Fits(order, maxBytes, maxItems) then order
    else Fitting(order[..|order| - 1], maxBytes, maxItems)
  }

  lemma {:induction false} TotalConcat(x: seq<Entry>, y: seq<Entry>)
    ensures Total(x + y) == Total(x) + Total(y)
    decreases |x|
  {
    if x == [] {
      assert x + y == y;
    } else {
      assert (x + y)[1..] == x[1..] + y;
      TotalConcat(x[1..], y);
    }
  }

  /** Eviction leaves the longest part of the list, counted from the front, that meets both limits. */
  lemma {:induction false} FittingIsLongest(order: seq<Entry>, maxBytes: int, maxItems: int, n: nat)
    requires maxBytes >= 0 && maxItems >= 0 && n <= |order|
    ensures var kept := Fitting(order, maxBytes, maxItems); Total(kept) <= maxBytes && |kept| <= maxItems
    ensures Total(order[..n]) <= maxBytes && n <= maxItems ==> n <= |Fitting(order, maxBytes, maxItems)|
  {
    if order != [] && !Fits(order, maxBytes, maxItems) {
      var shorter := order[..|order| - 1];
      if n < |order| {
        assert shorter[..n] == order[..n];
        FittingIsLongest(shorter, maxBytes, maxItems, n);
      } else {
        assert order[..n] == order;
        FittingIsLongest(shorter, maxBytes, maxItems, 0);
      }
    } else if order == [] {
      assert Total([]) == 0;
    }
  }

  /** Without keeps the order of the others. */
  lemma WithoutAt(order: seq<Entry>, key: string)
    ensures var r, i := Without(order, key), PlaceOf(order, key);
            && |r| == (if i < |order| then |order| - 1 else |order|)
            && forall j :: 0 <= j < |r| ==> r[j] == order[if j < i then j else j + 1]
  {
    hide PlaceOf;
  }

  lemma WithoutFacts(order: seq<Entry>, key: string)
    requires DistinctKeys(order)
    ensures var r := Without(order, key);
            DistinctKeys(r) && forall e :: e in r <==> e in order && e.key != key
  {
    hide PlaceOf, Without;
    WithoutAt(order, key);
    var r, i := Without(order, key), PlaceOf(order, key);
    forall e | e in order && e.key != key
      ensures e in r
    {
      var k :| 0 <= k < |order| && order[k] == e;
      assert r[if k < i then k else k - 1] == e;
    }
  }

  lemma WithoutTotal(order: seq<Entry>, key: string)
    ensures var i := PlaceOf(order, key);
            Total(Without(order, key)) == Total(order) - (if i < |order| then order[i].size else 0)
  {
    hide PlaceOf;
    var i := PlaceOf(order, key);
    if i < |order| {
      assert order == order[..i] + ([order[i]] + order[i + 1..]);
      TotalConcat(order[..i], [order[i]] + order[i + 1..]);
      TotalConcat([order[i]], order[i + 1..]);
      assert [order[i]][1..] == [] && Total([]) == 0;
      TotalConcat(order[..i], order[i + 1..]);
    }
  }

  lemma {:induction false} KeysCount(order: seq<Entry>)
    requires DistinctKeys(order)
    ensures |Keys(order)| == |order|
    decreases |order|
  {
    if order != [] {
      KeysCount(order[1..]);
      assert order[0].key !in Keys(order[1..]);
      assert Keys(order) == Keys(order[1..]) + {order[0].key};
    }
  }

  /** More recently used keys come first. */
  predicate ByRecency(order: seq<Entry>, used: map<string, nat>) {
    && (forall e <- order :: e.key in used)
    && forall i, j :: 0 <= i < j < |order| ==> used[order[i].key] > used[order[j].key]
  }

  lemma WithoutByRecency(order: seq<Entry>, key: string, used: map<string, nat>)
    requires ByRecency(order, used)
    ensures ByRecency(Without(order, key), used)
  {
    hide PlaceOf, Without;
    WithoutAt(order, key);
  }

  /** Putting an entry in front of a list without its key. */
  lemma FrontFacts(e: Entry, rest: seq<Entry>, used: map<string, nat>, uses: nat)
    requires DistinctKeys(rest) && ByRecency(rest, used) && (forall k <- used :: used[k] < uses)
    requires forall f <- rest :: f.key != e.key
    ensures var s := [e] + rest;
            && DistinctKeys(s) && ByRecency(s, used[e.key := uses])
            && Total(s) == e.size + Total(rest) && forall f :: f in s <==> f == e || f in rest
  {
    var s := [e] + rest;
    assert s[1..] == rest;
  }

  // ---- the state ----

  /** The map and the list are in bijection. */
  predicate Linked(items: map<string, Entry>, order: seq<Entry>) {
    && DistinctKeys(order)
    && (forall e <- order :: e.key in items && items[e.key] == e)
    && forall k <- items :: items[k] in order && items[k].key == k
  }

  /** Every entry is the last accepted write of its key. */
  predicate Written(order: seq<Entry>, written: map<string, Entry>) {
    forall e <- order :: e.key in written && written[e.key] == e && e.size == |e.data| > 0
  }

  /** The list is in the order of use. */
  predicate Used(order: seq<Entry>, used: map<string, nat>, uses: nat) {
    ByRecency(order, used) && forall k <- used :: used[k] < uses
  }

  lemma Counted(items: map<string, Entry>, order: seq<Entry>)
    requires Linked(items, order)
    ensures |items| == |order|
  {
    KeysCount(order);
    assert items.Keys == Keys(order);
  }

  lemma LinkedWithout(items: map<string, Entry>, order: seq<Entry>, key: string)
    requires Linked(items, order)
    ensures Linked(items - {key}, Without(order, key))
    ensures Total(Without(order, key)) == Total(order) - (if key in items then items[key].size else 0)
    ensures |Without(order, key)| == |order| - (if key in items then 1 else 0)
    ensures key !in items ==> Without(order, key) == order
  {
    hide Without, Total;
    WithoutFacts(order, key);
    WithoutTotal(order, key);
    WithoutAt(order, key);
    var i := PlaceOf(order, key);
    if i < |order| {
      assert order[i] in order;
    } else {
      assert key !in items;
      assert Without(order, key) == order;
    }
  }

  lemma UsedWithout(order: seq<Entry>, key: string, written: map<string, Entry>, used: map<string, nat>, uses: nat)
    requires DistinctKeys(order) && Written(order, written) && Used(order, used, uses)
    ensures Written(Without(order, key), written) && Used(Without(order, key), used, uses)
  {
    hide Without;
    WithoutFacts(order, key);
    WithoutByRecency(order, key, used);
  }

  lemma LinkedFront(items: map<string, Entry>, rest: seq<Entry>, e: Entry)
    requires Linked(items, rest) && e.key !in items
    ensures Linked(items[e.key := e], [e] + rest) && Total([e] + rest) == e.size + Total(rest)
  {
    var s := [e] + rest;
    assert s[1..] == rest;
    assert forall f :: f in s <==> f == e || f in rest;
  }

  lemma UsedFront(rest: seq<Entry>, e: Entry, written: map<string, Entry>, used: map<string, nat>, uses: nat)
    requires DistinctKeys([e] + rest) && Written(rest, written) && Used(rest, used, uses)
    requires e.size == |e.data| > 0
    ensures Written([e] + rest, written[e.key := e])
    ensures Used([e] + rest, used[e.key := uses], uses + 1)
  {
    var s := [e] + rest;
    forall f <- rest
      ensures f.key != e.key
    {
      var i :| 0 <= i < |rest| && rest[i] == f;
      assert s[0] == e && s[i + 1] == f;
    }
    assert DistinctKeys(rest) by {
      assert forall i :: 0 <= i < |rest| ==> rest[i] == s[i + 1];
    }
    FrontFacts(e, rest, used, uses);
  }

  lemma WithoutLast(order: seq<Entry>)
    requires DistinctKeys(order) && order != []
    ensures Without(order, order[|order| - 1].key) == order[..|order| - 1]
  {
    var n := |order| - 1;
    assert PlaceOf(order, order[n].key) == n;
    assert order[n + 1..] == [];
  }

  lemma LinkedDistinct(items: map<string, Entry>, order: seq<Entry>)
    requires Linked(items, order)
    ensures DistinctKeys(order)
  {
  }

  lemma LinkedAt(items: map<string, Entry>, order: seq<Entry>, n: nat)
    requires Linked(items, order) && n < |order|
    ensures DistinctKeys(order) && order[n].key in items && items[order[n].key] == order[n]
  {
    assert order[n] in order;
  }

  lemma LinkedAtKey(items: map<string, Entry>, order: seq<Entry>, key: string)
    requires Linked(items, order) && key in items
    ensures items[key].key == key && items[key] in order
  {
  }

  lemma WrittenAt(order: seq<Entry>, e: Entry, written: map<string, Entry>)
    requires Written(order, written) && e in order
    ensures e.key in written && written[e.key] == e && e.size == |e.data| > 0
  {
  }

  lemma FittingStays(order: seq<Entry>, maxBytes: int, maxItems: int)
    requires Fits(order, maxBytes, maxItems)
    ensures Fitting(order, maxBytes, maxItems) == order
  {
  }

  /** Evicting the back of a list that does not fit keeps what the cache promises. */
  lemma EvictLast(items: map<string, Entry>, order: seq<Entry>, written: map<string, Entry>,
                  used: map<string, nat>, uses: nat, maxBytes: int, maxItems: int)
    requires Linked(items, order) && Written(order, written) && Used(order, used, uses) && order != []
    requires !Fits(order, maxBytes, maxItems) && order[0].size <= maxBytes && maxItems > 0
    ensures |order| > 1 && order[|order| - 1].key in items && items[order[|order| - 1].key] == order[|order| - 1]
    ensures Without(order, order[|order| - 1].key) == order[..|order| - 1]
    ensures Written(order[..|order| - 1], written) && Used(order[..|order| - 1], used, uses)
    ensures Fitting(order, maxBytes, maxItems) == Fitting(order[..|order| - 1], maxBytes, maxItems)
  {
    hide Linked, Without;
    var n := |order| - 1;
    assert |order| == 1 ==> Total(order) == order[0].size + Total([]) by {
      assert |order| == 1 ==> order[1..] == [];
    }
    assert Total([]) == 0;
    LinkedAt(items, order, n);
    WithoutLast(order);
    assert forall e <- order[..n] :: e in order;
  }

  /** What a prefix of the list keeps was used more recently than what it leaves out. */
  lemma PrefixByRecency(all: seq<Entry>, allItems: map<string, Entry>, order: seq<Entry>, items: map<string, Entry>,
                        used: map<string, nat>, uses: nat, k: string, m: string)
    requires Linked(allItems, all) && Linked(items, order) && order <= all && Used(all, used, uses)
    requires k in allItems && k !in items && m in items
    ensures k in used && m in used && used[k] < used[m]
  {
    var i :| 0 <= i < |all| && all[i] == allItems[k];
    var j :| 0 <= j < |order| && order[j] == items[m];
    assert all[i] in all && all[j] in all;
    assert forall x :: 0 <= x < |order| ==> order[x] == all[x] && order[x] in order;
  }

  predicate PartOf(some: map<string, Entry>, all: map<string, Entry>) {
    forall k <- some :: k in all && some[k] == all[k]
  }

  /** What stays is as it was, and was used more recently than what went. */
  predicate Evicted(before: map<string, Entry>, after: map<string, Entry>, used: map<string, nat>) {
    && PartOf(after, before)
    && forall k <- before, m <- after :: k !in after ==> k in used && m in used && used[k] < used[m]
  }

  lemma EvictedForOne(before: map<string, Entry>, e: Entry, after: map<string, Entry>, used: map<string, nat>)
    requires Evicted((before - {e.key})[e.key := e], after, used) && e.key in after
    ensures Evicted(before[e.key := e], after, used)
  {
    assert (before - {e.key})[e.key := e] == before[e.key := e];
  }

  // ---- the cache ----

  class Cache {
    const maxBytes: int
    const maxItems: int
    const ttl: int
    var items: map<string, Entry>
    var order: seq<Entry>
    var bytes: int
    /** The last accepted write of each key, when each key was last written or read, and the number of
        such uses. */
    ghost var written: map<string, Entry>
    ghost var used: map<string, nat>
    ghost var uses: nat

    /** The map and the list hold the same entries, bytes is their size, both limits hold, every entry
        is the last accepted write of its key, and the list is in the order of use. */
    ghost predicate Valid()
      reads this
    {
      && maxBytes > 0 && maxItems > 0 && ttl > 0
      && Linked(items, order) && bytes == Total(order) && Fits(order, maxBytes, maxItems)
      && Written(order, written) && Used(order, used, uses)
    }

    /** Zero and negative settings mean the defaults. */
    constructor (maxBytes: int, maxItems: int, ttl: int)
      ensures Valid() && items == map[] && written == map[]
      ensures this.maxBytes == (if maxBytes <= 0 then 67_108_864 else maxBytes)
      ensures this.maxItems == (if maxItems <= 0 then 128 else maxItems)
      ensures this.ttl == (if ttl <= 0 then 86_400_000_000_000 else ttl)
    {
      this.maxBytes := if maxBytes <= 0 then DEFAULT_MAX_BYTES else maxBytes;
      this.maxItems := if maxItems <= 0 then DEFAULT_MAX_ITEMS else maxItems;
      this.ttl := if ttl <= 0 then DEFAULT_TTL else ttl;
      items, order, bytes := map[], [], 0;
      written, used, uses := map[], map[], 0;
    }

    method RemoveElement(e: Entry)
      requires Linked(items, order) && bytes == Total(order) && e.key in items && items[e.key] == e
      modifies this`items, this`order, this`bytes
      ensures Linked(items, order) && bytes == Total(order)
      ensures order == Without(old(order), e.key) && items == old(items) - {e.key}
    {
      hide Without, Linked;
      LinkedWithout(items, order, e.key);
      items := items - {e.key};
      bytes := bytes - e.size;
      order := Without(order, e.key);
    }

    /** Removes the entry of a key, if there is one. */
    method Drop(key: string)
      requires Linked(items, order) && bytes == Total(order)
      modifies this`items, this`order, this`bytes
      ensures Linked(items, order) && bytes == Total(order)
      ensures order == Without(old(order), key) && items == old(items) - {key}
    {
      hide Without, Linked;
      LinkedWithout(items, order, key);
      if key in items {
        LinkedAtKey(items, order, key);
        RemoveElement(items[key]);
      } else {
        assert items - {key} == items;
      }
    }

    /** A hit is the last accepted write of the key, not expired, and becomes the most recent; an
        expired entry goes. */
    method Get(key: string, now: int) returns (r: Option<Bytes>)
      requires Valid()
      modifies this`items, this`order, this`bytes, this`used, this`uses
      ensures Valid()
      ensures r.Some? <==> key in old(items) && now <= old(items)[key].expiresAt
      ensures r.Some? ==>
        && key in written && r.value == written[key].data && now <= written[key].expiresAt
        && items == old(items) && order == [items[key]] + Without(old(order), key)
      ensures r.None? ==> items == old(items) - {key} && order == Without(old(order), key)
    {
      hide Without, Linked, Written, Used, Total, DistinctKeys;
      LinkedDistinct(items, order);
      LinkedWithout(items, order, key);
      UsedWithout(order, key, written, used, uses);
      if key !in items {
        assert items - {key} == items;
        return None;
      }
      LinkedAtKey(items, order, key);
      WrittenAt(order, items[key], written);
      var entry := items[key];
      if now > entry.expiresAt {
        RemoveElement(entry);
        return None;
      }
      ghost var rest := Without(order, key);
      LinkedFront(items - {key}, rest, entry);
      assert (items - {key})[key := entry] == items;
      assert written[key := entry] == written;
      order := [entry] + Without(order, key);
      LinkedDistinct(items, order);
      UsedFront(rest, entry, written, used, uses);
      used, uses := used[key := uses], uses + 1;
      r := Some(entry.data);
    }
  
    /** Accepts a write of a key that is not in the cache. */
    method PushFront(entry: Entry)
      requires Linked(items, order) && bytes == Total(order) && Written(order, written) && Used(order, used, uses)
      requires entry.key !in items && entry.size == |entry.data| > 0
      modifies this`items, this`order, this`bytes, this`written, this`used, this`uses
      ensures Linked(items, order) && bytes == Total(order) && Written(order, written) && Used(order, used, uses)
      ensures order == [entry] + old(order) && items == old(items)[entry.key := entry]
      ensures written == old(written)[entry.key := entry]
    {
      hide Linked, Written, Used, Total, DistinctKeys;
      LinkedFront(items, order, entry);
      LinkedDistinct(items[entry.key := entry], [entry] + order);
      UsedFront(order, entry, written, used, uses);
      order := [entry] + order;
      items := items[entry.key := entry];
      bytes := bytes + entry.size;
      written := written[entry.key := entry];
      used, uses := used[entry.key := uses], uses + 1;
    }

    /** Evicts from the back while a limit is exceeded. */
    method EvictOverflow()
      requires Linked(items, order) && bytes == Total(order) && Written(order, written) && Used(order, used, uses)
      requires order != [] && order[0].size <= maxBytes && maxItems > 0
      modifies this`items, this`order, this`bytes
      ensures Linked(items, order) && bytes == Total(order) && Written(order, written) && Used(order, used, uses)
      ensures Fits(order, maxBytes, maxItems) && order == Fitting(old(order), maxBytes, maxItems)
      ensures bytes <= maxBytes && |items| <= maxItems
      ensures order != [] && order <= old(order)
      ensures Evicted(old(items), items, used)
    {
      hide Linked, Written, Used, Without, Total, Fitting, DistinctKeys;
      Counted(items, order);
      while bytes > maxBytes || |items| > maxItems
        invariant Linked(items, order) && bytes == Total(order) && |items| == |order|
        invariant order != [] && order <= old(order)
        invariant Written(order, written) && Used(order, used, uses)
        invariant Fitting(order, maxBytes, maxItems) == Fitting(old(order), maxBytes, maxItems)
        invariant PartOf(items, old(items))
        decreases |order|
      {
        EvictLast(items, order, written, used, uses, maxBytes, maxItems);
        RemoveElement(order[|order| - 1]);
        Counted(items, order);
      }
      FittingStays(order, maxBytes, maxItems);
      forall k <- old(items), m <- items | k !in items
        ensures k in used && m in used && used[k] < used[m]
      {
        PrefixByRecency(old(order), old(items), order, items, used, uses, k, m);
      }
    }

    /** Empty and oversized data change nothing. Otherwise the write is accepted: it comes first, an
        older entry of its key goes, and what else goes is the part of the list that does not fit,
        which was used less recently than anything that stays. */
    method Set(key: string, data: Bytes, now: int)
      requires Valid()
      modifies this`items, this`order, this`bytes, this`written, this`used, this`uses
      ensures Valid()
      ensures |data| == 0 || |data| > maxBytes ==>
        items == old(items) && order == old(order) && written == old(written)
      ensures 0 < |data| <= maxBytes ==>
        var entry := Entry(key, data, |data|, now + ttl);
        && order == Fitting([entry] + Without(old(order), key), maxBytes, maxItems)
        && written == old(written)[key := entry]
        && key in items && items[key] == entry
        && Evicted(old(items)[key := entry], items, used)
        && bytes <= maxBytes && |items| <= maxItems
    {
      if |data| == 0 || |data| > maxBytes {
        return;
      }
      hide Linked, Written, Used, Without, Total, Fitting, DistinctKeys, Evicted;
      LinkedDistinct(items, order);
      UsedWithout(order, key, written, used, uses);
      Drop(key);
      var entry := Entry(key, data, |data|, now + ttl);
      PushFront(entry);
      EvictOverflow();
      LinkedAt(items, order, 0);
      EvictedForOne(old(items), entry, items, used);
    }
  }
}
