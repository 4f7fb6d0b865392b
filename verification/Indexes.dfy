/** What each derived bucket must hold, stated from the books alone, and how one
    book entering or leaving the library changes it. */
module Indexes {
  import opened Wrappers
  import opened ByteOrder
  import opened Text
  import opened Clock
  import opened Library

  type Bucket = map<string, string>

  /** The derived buckets whose entries each belong to one book. */
  datatype View = ByOwner | BySort | ByCategory | ByText | ByGram | MissingHash

  /** The keys a book contributes to a bucket. */
  ghost function Keys(lower: Lowering, v: View, b: Book): set<string> {
    match v
    case ByOwner => if Listed(b) then {OwnerKey(b.userID, b.id)} else {}
    case BySort =>
      if Listed(b) then
        {SortIndexKey(lower, b, RecentRead), SortIndexKey(lower, b, RecentAdded),
         SortIndexKey(lower, b, Title), SortIndexKey(lower, b, Author)}
      else {}
    case ByCategory =>
      if Listed(b) then
        {CategoryIndexKey(lower, b, RecentRead), CategoryIndexKey(lower, b, RecentAdded),
         CategoryIndexKey(lower, b, Title), CategoryIndexKey(lower, b, Author)}
      else {}
    case ByText => if Listed(b) then {SearchKey(b.userID, b.id)} else {}
    case ByGram =>
      if Listed(b) then set g | g in GramsOf(SearchText(lower, b)) :: GramKey(b.userID, g, b.id) else {}
    case MissingHash =>
      if b.id != "" && b.contentHash == "" then {SearchKey(b.userID, b.id)} else {}
  }

  ghost function SortKeyIn(lower: Lowering, v: View, b: Book, i: nat): string
    requires i < |SUPPORTED_SORTS|
  {
    if v.BySort? then SortIndexKey(lower, b, SUPPORTED_SORTS[i]) else CategoryIndexKey(lower, b, SUPPORTED_SORTS[i])
  }

  /** The keys of the first n supported sorts. */
  ghost function FirstKeys(lower: Lowering, v: View, b: Book, n: nat): set<string>
    requires n <= |SUPPORTED_SORTS|
  {
    set i | 0 <= i < n :: SortKeyIn(lower, v, b, i)
  }

  lemma FirstKeysStep(lower: Lowering, v: View, b: Book, n: nat)
    requires n < |SUPPORTED_SORTS|
    ensures FirstKeys(lower, v, b, n + 1) == FirstKeys(lower, v, b, n) + {SortKeyIn(lower, v, b, n)}
  {
    hide SortKeyIn;
  }

  lemma AllKeys(lower: Lowering, v: View, b: Book)
    requires Listed(b) && v in {BySort, ByCategory}
    ensures FirstKeys(lower, v, b, 0) == {}
    ensures Keys(lower, v, b) == FirstKeys(lower, v, b, |SUPPORTED_SORTS|)
  {
    hide SortIndexKey, CategoryIndexKey, SortKeyIn;
    assert FirstKeys(lower, v, b, 4) ==
      {SortKeyIn(lower, v, b, 0), SortKeyIn(lower, v, b, 1), SortKeyIn(lower, v, b, 2), SortKeyIn(lower, v, b, 3)};
    SortKeysIn(lower, v, b);
  }

  lemma SortKeysIn(lower: Lowering, v: View, b: Book)
    requires Listed(b) && v in {BySort, ByCategory}
    ensures Keys(lower, v, b) ==
      {SortKeyIn(lower, v, b, 0), SortKeyIn(lower, v, b, 1), SortKeyIn(lower, v, b, 2), SortKeyIn(lower, v, b, 3)}
  {
    hide SortIndexKey, CategoryIndexKey;
  }

  ghost function Value(lower: Lowering, v: View, b: Book): string {
    match v
    case ByOwner => ""
    case ByText => SearchText(lower, b)
    case ByGram => ""
    case _ => b.id
  }

  ghost function Entries(lower: Lowering, v: View, b: Book): Bucket {
    map k | k in Keys(lower, v, b) :: Value(lower, v, b)
  }

  /** The entries of the first n supported sorts. */
  ghost function FirstEntries(lower: Lowering, v: View, b: Book, n: nat): Bucket
    requires n <= |SUPPORTED_SORTS|
  {
    map k | k in FirstKeys(lower, v, b, n) :: b.id
  }

  lemma FirstEntriesStep(lower: Lowering, v: View, b: Book, n: nat, bucket: Bucket)
    requires n < |SUPPORTED_SORTS|
    ensures bucket + FirstEntries(lower, v, b, n + 1) ==
            (bucket + FirstEntries(lower, v, b, n))[SortKeyIn(lower, v, b, n) := b.id]
  {
    hide FirstKeys, SortKeyIn;
    FirstKeysStep(lower, v, b, n);
  }

  lemma AllEntries(lower: Lowering, v: View, b: Book)
    requires Listed(b) && v in {BySort, ByCategory}
    ensures FirstEntries(lower, v, b, 0) == map[]
    ensures Entries(lower, v, b) == FirstEntries(lower, v, b, |SUPPORTED_SORTS|)
  {
    hide FirstKeys, Keys;
    AllKeys(lower, v, b);
  }

  /** The bucket holds exactly the entries of the books. */
  ghost predicate Derived(lower: Lowering, v: View, books: Books, bucket: Bucket) {
    && (forall id, k :: id in books && k in Keys(lower, v, books[id]) ==>
          k in bucket && bucket[k] == Value(lower, v, books[id]))
    && (forall k :: k in bucket ==> exists id :: id in books && k in Keys(lower, v, books[id]))
  }

  /** Every key names its book: it ends in a separator and the identifier. */
  lemma KeyEndsInId(lower: Lowering, v: View, b: Book, k: string) returns (x: string)
    requires k in Keys(lower, v, b)
    ensures k == x + (if v.ByOwner? then ":" else NUL) + b.id
  {
    hide SortValue, CategoryOf, SearchText, SortPrefix, CategoryPrefix, GramsOf;
    match v
    case ByOwner => x := b.userID;
    case BySort =>
      var s :| s in SUPPORTED_SORTS && k == SortIndexKey(lower, b, s);
      x := SortPrefix(b.userID, s) + SortValue(lower, b, s);
    case ByCategory =>
      var s :| s in SUPPORTED_SORTS && k == CategoryIndexKey(lower, b, s);
      x := CategoryPrefix(b.userID, CategoryOf(b), s) + SortValue(lower, b, s);
    case ByText => x := b.userID;
    case ByGram =>
      var g :| g in GramsOf(SearchText(lower, b)) && k == GramKey(b.userID, g, b.id);
      x := b.userID + NUL + g;
    case MissingHash => x := b.userID;
  }

  /** Books with different identifiers never share a key. */
  lemma KeysSeparate(lower: Lowering, v: View, a: Book, b: Book)
    requires IsBook(a) && IsBook(b) && a.id != b.id
    ensures Keys(lower, v, a) !! Keys(lower, v, b)
  {
    hide Keys;
    forall k | k in Keys(lower, v, a) ensures k !in Keys(lower, v, b) {
      if k in Keys(lower, v, b) {
        var x := KeyEndsInId(lower, v, a, k);
        var y := KeyEndsInId(lower, v, b, k);
        LastComponent(x, y, if v.ByOwner? then ':' else '\0', a.id, b.id);
        assert false;
      }
    }
  }

  /** A book that is not in the library has no entry in the bucket. */
  lemma KeysFree(lower: Lowering, v: View, books: Books, bucket: Bucket, b: Book)
    requires WellKeyed(books) && IsBook(b) && b.id !in books
    requires Derived(lower, v, books, bucket)
    ensures bucket.Keys !! Keys(lower, v, b)
  {
    hide Keys, Value, IsBook;
    forall k | k in bucket ensures k !in Keys(lower, v, b) {
      var id :| id in books && k in Keys(lower, v, books[id]);
      KeysSeparate(lower, v, books[id], b);
    }
  }

  lemma DerivedInsert(lower: Lowering, v: View, books: Books, bucket: Bucket, b: Book)
    requires b.id !in books && bucket.Keys !! Keys(lower, v, b)
    requires Derived(lower, v, books, bucket)
    ensures Derived(lower, v, books[b.id := b], bucket + Entries(lower, v, b))
  {
    hide Keys, Value;
    var after, bucket' := books[b.id := b], bucket + Entries(lower, v, b);
    forall k | k in bucket' ensures exists id :: id in after && k in Keys(lower, v, after[id]) {
      if k in Keys(lower, v, b) {
        assert after[b.id] == b;
      } else {
        var id :| id in books && k in Keys(lower, v, books[id]);
        assert after[id] == books[id];
      }
    }
  }

  lemma DerivedRemove(lower: Lowering, v: View, books: Books, bucket: Bucket, id: string)
    requires WellKeyed(books) && id in books
    requires Derived(lower, v, books, bucket)
    ensures Derived(lower, v, books - {id}, bucket - Keys(lower, v, books[id]))
  {
    hide Keys, Value, IsBook;
    var after, bucket' := books - {id}, bucket - Keys(lower, v, books[id]);
    forall other, k | other in after && k in Keys(lower, v, after[other])
      ensures k in bucket' && bucket'[k] == Value(lower, v, after[other])
    {
      KeysSeparate(lower, v, books[other], books[id]);
    }
    forall k | k in bucket' ensures exists o :: o in after && k in Keys(lower, v, after[o]) {
      var o :| o in books && k in Keys(lower, v, books[o]);
      assert o in after && after[o] == books[o];
    }
  }

  /** Replacing a record whose entries do not change leaves the bucket exact. */
  lemma DerivedUnaffected(lower: Lowering, v: View, books: Books, bucket: Bucket, b: Book)
    requires b.id in books && Derived(lower, v, books, bucket)
    requires Keys(lower, v, b) == Keys(lower, v, books[b.id])
    requires Value(lower, v, b) == Value(lower, v, books[b.id])
    ensures Derived(lower, v, books[b.id := b], bucket)
  {
    hide Keys, Value, IsBook;
    var after := books[b.id := b];
    forall k | k in bucket ensures exists id :: id in after && k in Keys(lower, v, after[id]) {
      var id :| id in books && k in Keys(lower, v, books[id]);
      assert k in Keys(lower, v, after[id]);
    }
  }

  /** The books determine the bucket: two exact buckets are equal. */
  lemma DerivedUnique(lower: Lowering, v: View, books: Books, x: Bucket, y: Bucket)
    requires Derived(lower, v, books, x) && Derived(lower, v, books, y)
    ensures x == y
  {
    hide Keys, Value, IsBook;
    forall k | k in x ensures k in y && x[k] == y[k] {
      var id :| id in books && k in Keys(lower, v, books[id]);
    }
    forall k | k in y ensures k in x {
      var id :| id in books && k in Keys(lower, v, books[id]);
    }
    assert x.Keys == y.Keys;
  }

  // ---- gram counts ----

  type Counts = map<string, nat>

  function CountAt(counts: Counts, p: string): nat {
    if p in counts then counts[p] else 0
  }

  ghost function GramPrefixes(lower: Lowering, b: Book): set<string> {
    if Listed(b) then set g | g in GramsOf(SearchText(lower, b)) :: GramPrefix(b.userID, g) else {}
  }

  /** The prefixes of the first n grams whose posting is (or is not) in the bucket. */
  ghost function PrefixesOf(user: string, id: string, grams: seq<string>, n: nat, bucket: Bucket,
                            posted: bool): set<string>
    requires n <= |grams|
  {
    set i | 0 <= i < n && (GramKey(user, grams[i], id) in bucket) == posted :: GramPrefix(user, grams[i])
  }

  ghost function GramKeysOf(user: string, id: string, grams: seq<string>, n: nat): set<string>
    requires n <= |grams|
  {
    set i | 0 <= i < n :: GramKey(user, grams[i], id)
  }

  lemma GramKeysInjective(user: string, id: string, g: string, h: string)
    ensures GramKey(user, g, id) == GramKey(user, h, id) ==> g == h
    ensures GramPrefix(user, g) == GramPrefix(user, h) ==> g == h
  {
    if GramKey(user, g, id) == GramKey(user, h, id) {
      var k := GramKey(user, g, id);
      assert |g| == |h|;
      assert g == k[|user| + 1..|user| + 1 + |g|] == h;
    }
    if GramPrefix(user, g) == GramPrefix(user, h) {
      var k := GramPrefix(user, g);
      assert |g| == |h|;
      assert g == k[|user| + 1..|user| + 1 + |g|] == h;
    }
  }

  lemma GramStart(user: string, id: string, grams: seq<string>, bucket: Bucket)
    ensures GramKeysOf(user, id, grams, 0) == {}
    ensures PrefixesOf(user, id, grams, 0, bucket, true) == PrefixesOf(user, id, grams, 0, bucket, false) == {}
  {
  }

  lemma SearchTextNormal(lower: Lowering, b: Book)
    requires IsLowering(lower)
    ensures Normalize(lower, SearchText(lower, b)) == SearchText(lower, b)
  {
    hide Normalize;
    var category := if b.category.Some? then b.category.value else "";
    NormalizeIdempotent(lower, b.title + " " + b.author + " " + b.filename + " " + b.format + " " + category);
  }

  /** One more gram: its key and prefix are new when the grams are distinct. */
  lemma GramStep(user: string, id: string, grams: seq<string>, n: nat, bucket: Bucket, posted: bool)
    requires n < |grams| && Distinct(grams)
    ensures GramKeysOf(user, id, grams, n + 1) == GramKeysOf(user, id, grams, n) + {GramKey(user, grams[n], id)}
    ensures GramKey(user, grams[n], id) !in GramKeysOf(user, id, grams, n)
    ensures GramKey(user, grams[n], id) in GramKeysOf(user, id, grams, |grams|)
    ensures GramPrefix(user, grams[n]) !in PrefixesOf(user, id, grams, n, bucket, posted)
    ensures PrefixesOf(user, id, grams, n + 1, bucket, posted) ==
            PrefixesOf(user, id, grams, n, bucket, posted) +
            (if (GramKey(user, grams[n], id) in bucket) == posted then {GramPrefix(user, grams[n])} else {})
  {
    hide GramKey, GramPrefix;
    forall i | 0 <= i < n ensures GramKey(user, grams[i], id) != GramKey(user, grams[n], id)
                             && GramPrefix(user, grams[i]) != GramPrefix(user, grams[n])
    {
      GramKeysInjective(user, id, grams[i], grams[n]);
    }
  }

  lemma AllGrams(lower: Lowering, b: Book, grams: seq<string>, bucket: Bucket)
    requires Listed(b)
    requires forall g :: g in grams <==> g in GramsOf(SearchText(lower, b))
    ensures Keys(lower, ByGram, b) == GramKeysOf(b.userID, b.id, grams, |grams|)
    ensures Keys(lower, ByGram, b) !! bucket.Keys ==>
      PrefixesOf(b.userID, b.id, grams, |grams|, bucket, false) == GramPrefixes(lower, b)
    ensures Keys(lower, ByGram, b) <= bucket.Keys ==>
      PrefixesOf(b.userID, b.id, grams, |grams|, bucket, true) == GramPrefixes(lower, b)
  {
    hide GramKey, GramPrefix, SearchText, GramsOf;
    var keys := GramKeysOf(b.userID, b.id, grams, |grams|);
    forall g | g in GramsOf(SearchText(lower, b)) ensures GramKey(b.userID, g, b.id) in keys {
      var i :| 0 <= i < |grams| && grams[i] == g;
    }
    assert Keys(lower, ByGram, b) == keys;
    forall p | p in GramPrefixes(lower, b)
      ensures exists i :: 0 <= i < |grams| && p == GramPrefix(b.userID, grams[i])
    {
      var g :| g in GramsOf(SearchText(lower, b)) && p == GramPrefix(b.userID, g);
      var i :| 0 <= i < |grams| && grams[i] == g;
    }
  }

  /** The books posted under one (user, gram) prefix. */
  ghost function Posters(lower: Lowering, books: Books, p: string): set<string> {
    set id | id in books && p in GramPrefixes(lower, books[id])
  }

  ghost predicate CountsExact(lower: Lowering, books: Books, counts: Counts) {
    && (forall p :: CountAt(counts, p) == |Posters(lower, books, p)|)
    && Positive(counts)
  }

  ghost predicate Positive(counts: Counts) {
    forall p <- counts :: counts[p] > 0
  }

  /** Each of the given prefixes counts one more. */
  ghost predicate Raised(was: Counts, ps: set<string>, now: Counts) {
    && (Positive(was) ==> Positive(now))
    && (forall p :: CountAt(now, p) == CountAt(was, p) + if p in ps then 1 else 0)
  }

  /** Each of the given prefixes counts one less, but never below zero. */
  ghost predicate Lowered(was: Counts, ps: set<string>, now: Counts) {
    && (Positive(was) ==> Positive(now))
    && (forall p :: CountAt(now, p) ==
          if p in ps && CountAt(was, p) > 0 then CountAt(was, p) - 1 else CountAt(was, p))
  }

  /** adjustBookSearchGramCount: a count that reaches zero leaves the bucket. */
  function AdjustedCount(counts: Counts, p: string, delta: int): Counts {
    var count := CountAt(counts, p) + delta;
    if count <= 0 then counts - {p} else counts[p := count]
  }

  lemma NothingMoved(counts: Counts)
    ensures Raised(counts, {}, counts) && Lowered(counts, {}, counts)
  {
  }

  lemma RaisedStep(was: Counts, ps: set<string>, now: Counts, p: string)
    requires Raised(was, ps, now) && p !in ps
    ensures Raised(was, ps + {p}, AdjustedCount(now, p, 1))
  {
  }

  lemma LoweredStep(was: Counts, ps: set<string>, now: Counts, p: string)
    requires Lowered(was, ps, now) && p !in ps
    ensures Lowered(was, ps + {p}, AdjustedCount(now, p, -1))
  {
    var next := AdjustedCount(now, p, -1);
    assert CountAt(next, p) == if CountAt(was, p) > 0 then CountAt(was, p) - 1 else 0;
    assert forall q :: q != p ==> CountAt(next, q) == CountAt(now, q);
  }

  lemma PostersRemove(lower: Lowering, books: Books, id: string, p: string)
    requires id in books
    ensures |Posters(lower, books - {id}, p)| ==
      |Posters(lower, books, p)| - (if p in GramPrefixes(lower, books[id]) then 1 else 0)
  {
    hide GramPrefixes;
    var x := Posters(lower, books, p);
    assert Posters(lower, books - {id}, p) == x - {id};
    assert id in x <==> p in GramPrefixes(lower, books[id]);
  }

  lemma CountsInsert(lower: Lowering, books: Books, counts: Counts, b: Book, counts': Counts)
    requires b.id !in books && CountsExact(lower, books, counts)
    requires Raised(counts, GramPrefixes(lower, b), counts')
    ensures CountsExact(lower, books[b.id := b], counts')
  {
    hide GramPrefixes, Posters;
    var after := books[b.id := b];
    assert after - {b.id} == books;
    forall p ensures CountAt(counts', p) == |Posters(lower, after, p)| {
      PostersRemove(lower, after, b.id, p);
    }
  }

  lemma CountsRemove(lower: Lowering, books: Books, counts: Counts, id: string, counts': Counts)
    requires id in books && CountsExact(lower, books, counts)
    requires Lowered(counts, GramPrefixes(lower, books[id]), counts')
    ensures CountsExact(lower, books - {id}, counts')
  {
    hide GramPrefixes, Posters;
    forall p ensures CountAt(counts', p) == |Posters(lower, books - {id}, p)| {
      PostersRemove(lower, books, id, p);
    }
  }

  lemma CountsUnaffected(lower: Lowering, books: Books, counts: Counts, b: Book)
    requires b.id in books && CountsExact(lower, books, counts)
    requires GramPrefixes(lower, b) == GramPrefixes(lower, books[b.id])
    ensures CountsExact(lower, books[b.id := b], counts)
  {
    hide GramPrefixes;
    forall p ensures CountAt(counts, p) == |Posters(lower, books[b.id := b], p)| {
      assert Posters(lower, books[b.id := b], p) == Posters(lower, books, p);
    }
  }

  lemma CountsUnique(lower: Lowering, books: Books, x: Counts, y: Counts)
    requires CountsExact(lower, books, x) && CountsExact(lower, books, y)
    ensures x == y
  {
    hide GramPrefixes;
    forall p ensures p in x <==> p in y {
      assert CountAt(x, p) == CountAt(y, p);
    }
    forall p | p in x ensures x[p] == y[p] {
      assert CountAt(x, p) == CountAt(y, p);
    }
  }

  // ---- library summary ----

  datatype Summary = Summary(total: int, uncategorized: int, categories: map<string, int>)

  const NO_BOOKS: Summary := Summary(0, 0, map[])

  function LoadSummary(bucket: map<string, Summary>, user: string): Summary {
    if user == "" || user !in bucket then NO_BOOKS else bucket[user]
  }

  ghost function Owned(books: Books, user: string): set<string> {
    set id | id in books && books[id].userID == user
  }

  ghost function OwnedIn(books: Books, user: string, category: string): set<string> {
    set id | id in books && books[id].userID == user && CategoryOf(books[id]) == category
  }

  ghost predicate Summarizes(s: Summary, books: Books, user: string) {
    && s.total == |Owned(books, user)|
    && s.uncategorized == |OwnedIn(books, user, "")|
    && "" !in s.categories
    && (forall c :: c != "" ==> CategoryCount(s, c) == |OwnedIn(books, user, c)|)
    && (forall c :: c in s.categories ==> s.categories[c] > 0)
  }

  function CategoryCount(s: Summary, c: string): int {
    if c in s.categories then s.categories[c] else 0
  }

  ghost predicate SummaryExact(books: Books, bucket: map<string, Summary>) {
    "" !in bucket && forall u :: u != "" ==> Summarizes(LoadSummary(bucket, u), books, u)
  }

  /** adjustLibrarySummary on one record, clamps included. */
  function Adjusted(s: Summary, category: string, delta: int): Summary {
    var total := if s.total + delta < 0 then 0 else s.total + delta;
    if category == "" then
      Summary(total, if s.uncategorized + delta < 0 then 0 else s.uncategorized + delta, s.categories)
    else
      var n := CategoryCount(s, category) + delta;
      Summary(total, s.uncategorized, if n <= 0 then s.categories - {category} else s.categories[category := n])
  }

  /** Without a clamp, adjusting moves the total and one count by delta. */
  lemma AdjustedCounts(s: Summary, category: string, delta: int)
    requires s.total + delta >= 0 && "" !in s.categories
    requires (if category == "" then s.uncategorized else CategoryCount(s, category)) + delta >= 0
    requires forall c :: c in s.categories ==> s.categories[c] > 0
    ensures var t := Adjusted(s, category, delta);
            && t.total == s.total + delta
            && t.uncategorized == s.uncategorized + (if category == "" then delta else 0)
            && "" !in t.categories
            && (forall c :: c in t.categories ==> t.categories[c] > 0)
            && (forall c :: c != "" ==>
                  CategoryCount(t, c) == CategoryCount(s, c) + (if c == category then delta else 0))
  {
  }

  lemma OwnedRemove(books: Books, id: string, u: string, c: string)
    requires id in books
    ensures |Owned(books - {id}, u)| == |Owned(books, u)| - (if u == books[id].userID then 1 else 0)
    ensures |OwnedIn(books - {id}, u, c)| ==
      |OwnedIn(books, u, c)| - (if u == books[id].userID && c == CategoryOf(books[id]) then 1 else 0)
  {
    hide CategoryOf;
    var after, b := books - {id}, books[id];
    var x, y := Owned(books, u), OwnedIn(books, u, c);
    assert Owned(after, u) == x - {id};
    assert OwnedIn(after, u, c) == y - {id};
    assert id in x <==> u == b.userID;
    assert id in y <==> u == b.userID && c == CategoryOf(b);
  }

  lemma OwnedInsert(books: Books, b: Book, u: string, c: string)
    requires b.id !in books
    ensures |Owned(books[b.id := b], u)| == |Owned(books, u)| + (if u == b.userID then 1 else 0)
    ensures |OwnedIn(books[b.id := b], u, c)| ==
      |OwnedIn(books, u, c)| + (if u == b.userID && c == CategoryOf(b) then 1 else 0)
  {
    hide CategoryOf;
    var after := books[b.id := b];
    assert after - {b.id} == books;
    OwnedRemove(after, b.id, u, c);
  }

  lemma SummarizesInsert(s: Summary, books: Books, b: Book, u: string)
    requires b.id !in books && Summarizes(s, books, u)
    ensures Summarizes(if u == b.userID then Adjusted(s, CategoryOf(b), 1) else s, books[b.id := b], u)
  {
    hide CategoryOf, Adjusted, CategoryCount, Owned, OwnedIn;
    var s', after := if u == b.userID then Adjusted(s, CategoryOf(b), 1) else s, books[b.id := b];
    if u == b.userID {
      CountsAreNatural(s, CategoryOf(b));
      AdjustedCounts(s, CategoryOf(b), 1);
    }
    forall c ensures |Owned(after, u)| == |Owned(books, u)| + (if u == b.userID then 1 else 0)
      && |OwnedIn(after, u, c)| == |OwnedIn(books, u, c)| + (if u == b.userID && c == CategoryOf(b) then 1 else 0)
    {
      OwnedInsert(books, b, u, c);
    }
    assert |OwnedIn(after, u, "")| == |OwnedIn(books, u, "")| + (if u == b.userID && "" == CategoryOf(b) then 1 else 0);
    SummarizesStep(s, s', books, after, u);
  }

  lemma CountsAreNatural(s: Summary, c: string)
    requires forall k :: k in s.categories ==> s.categories[k] > 0
    ensures CategoryCount(s, c) >= 0
  {
  }

  lemma SummaryInsert(books: Books, bucket: map<string, Summary>, b: Book)
    requires b.id !in books && SummaryExact(books, bucket) && b.userID != ""
    ensures SummaryExact(books[b.id := b],
                         bucket[b.userID := Adjusted(LoadSummary(bucket, b.userID), CategoryOf(b), 1)])
  {
    hide CategoryOf, Adjusted, Summarizes;
    var bucket' := bucket[b.userID := Adjusted(LoadSummary(bucket, b.userID), CategoryOf(b), 1)];
    forall u | u != "" ensures Summarizes(LoadSummary(bucket', u), books[b.id := b], u) {
      SummarizesInsert(LoadSummary(bucket, u), books, b, u);
    }
  }

  /** From counts per category to the whole summary. */
  lemma SummarizesStep(s: Summary, s': Summary, books: Books, after: Books, u: string)
    requires Summarizes(s, books, u)
    requires s'.total - s.total == |Owned(after, u)| - |Owned(books, u)|
    requires s'.uncategorized - s.uncategorized == |OwnedIn(after, u, "")| - |OwnedIn(books, u, "")|
    requires "" !in s'.categories
    requires forall c :: c != "" ==>
      CategoryCount(s', c) - CategoryCount(s, c) == |OwnedIn(after, u, c)| - |OwnedIn(books, u, c)|
    requires forall c :: c in s'.categories ==> s'.categories[c] > 0
    ensures Summarizes(s', after, u)
  {
    hide CategoryOf, CategoryCount;
  }

  /** What leaves was counted, so the clamps at zero cannot fire. */
  lemma ClampsNeverFire(books: Books, bucket: map<string, Summary>, id: string)
    requires id in books && SummaryExact(books, bucket) && books[id].userID != ""
    ensures var s := LoadSummary(bucket, books[id].userID);
            s.total >= 1 && (if CategoryOf(books[id]) == "" then s.uncategorized
                             else CategoryCount(s, CategoryOf(books[id]))) >= 1
  {
    hide CategoryOf, CategoryCount;
    var b := books[id];
    assert Summarizes(LoadSummary(bucket, b.userID), books, b.userID);
    assert id in Owned(books, b.userID) && id in OwnedIn(books, b.userID, CategoryOf(b));
  }

  lemma SummarizesRemove(s: Summary, books: Books, id: string, u: string)
    requires id in books && Summarizes(s, books, u)
    ensures Summarizes(if u == books[id].userID then Adjusted(s, CategoryOf(books[id]), -1) else s, books - {id}, u)
  {
    hide CategoryOf, Adjusted, CategoryCount, Owned, OwnedIn;
    var b, after := books[id], books - {id};
    var s' := if u == b.userID then Adjusted(s, CategoryOf(b), -1) else s;
    forall c ensures |Owned(after, u)| == |Owned(books, u)| - (if u == b.userID then 1 else 0)
      && |OwnedIn(after, u, c)| == |OwnedIn(books, u, c)| - (if u == b.userID && c == CategoryOf(b) then 1 else 0)
    {
      OwnedRemove(books, id, u, c);
    }
    assert |OwnedIn(after, u, CategoryOf(b))| >= 0;
    if u == b.userID {
      AdjustedCounts(s, CategoryOf(b), -1);
    }
    assert |OwnedIn(after, u, "")| == |OwnedIn(books, u, "")| - (if u == b.userID && "" == CategoryOf(b) then 1 else 0);
    SummarizesStep(s, s', books, after, u);
  }

  lemma SummaryRemove(books: Books, bucket: map<string, Summary>, id: string)
    requires id in books && SummaryExact(books, bucket) && books[id].userID != ""
    ensures SummaryExact(books - {id},
              bucket[books[id].userID := Adjusted(LoadSummary(bucket, books[id].userID), CategoryOf(books[id]), -1)])
  {
    hide CategoryOf, Adjusted, Summarizes;
    var b := books[id];
    var bucket' := bucket[b.userID := Adjusted(LoadSummary(bucket, b.userID), CategoryOf(b), -1)];
    forall u | u != "" ensures Summarizes(LoadSummary(bucket', u), books - {id}, u) {
      SummarizesRemove(LoadSummary(bucket, u), books, id, u);
    }
  }

  lemma SummaryUnaffected(books: Books, bucket: map<string, Summary>, b: Book)
    requires b.id in books && SummaryExact(books, bucket)
    requires b.userID == books[b.id].userID && CategoryOf(b) == CategoryOf(books[b.id])
    ensures SummaryExact(books[b.id := b], bucket)
  {
    var after := books[b.id := b];
    forall u | u != "" ensures Summarizes(LoadSummary(bucket, u), after, u) {
      assert Owned(after, u) == Owned(books, u);
      forall c ensures OwnedIn(after, u, c) == OwnedIn(books, u, c) {}
      SummarizesStep(LoadSummary(bucket, u), LoadSummary(bucket, u), books, after, u);
    }
  }

  /** As loadLibrarySummary reads it, the books determine the summary. */
  lemma SummaryUnique(books: Books, x: map<string, Summary>, y: map<string, Summary>, u: string)
    requires u != "" && SummaryExact(books, x) && SummaryExact(books, y)
    ensures LoadSummary(x, u) == LoadSummary(y, u)
  {
    var s, t := LoadSummary(x, u), LoadSummary(y, u);
    assert Summarizes(s, books, u) && Summarizes(t, books, u);
    forall c ensures c in s.categories <==> c in t.categories {
      if c != "" { assert CategoryCount(s, c) == CategoryCount(t, c); }
    }
    forall c | c in s.categories ensures s.categories[c] == t.categories[c] {
      assert CategoryCount(s, c) == CategoryCount(t, c);
    }
    assert s.categories == t.categories;
  }

  /** The raw buckets agree exactly when no user is left with an entry counting
      nothing: deleting a user's last book leaves such an entry, a rebuild does not. */
  lemma SummaryBucketsEqual(books: Books, x: map<string, Summary>, y: map<string, Summary>)
    requires SummaryExact(books, x) && SummaryExact(books, y)
    requires forall u :: u in y ==> Owned(books, u) != {}
    ensures x == y <==> forall u <- x :: x[u] != NO_BOOKS
  {
    forall u ensures LoadSummary(x, u) == LoadSummary(y, u) {
      if u != "" { SummaryUnique(books, x, y, u); }
    }
    forall u | u in y ensures y[u] != NO_BOOKS {
      assert Summarizes(LoadSummary(y, u), books, u);
    }
    hide SummaryExact, Summarizes;
    if forall u <- x :: x[u] != NO_BOOKS {
      forall u ensures u in x <==> u in y { assert LoadSummary(x, u) == LoadSummary(y, u); }
      forall u | u in x ensures x[u] == y[u] { assert LoadSummary(x, u) == LoadSummary(y, u); }
    }
  }

  /** The entry that stays behind: one book added and deleted again. */
  lemma ZeroEntryStays(b: Book)
    requires b.userID != ""
    ensures SummaryMoved(SummaryMoved(map[], b, 1), b, -1) == map[b.userID := NO_BOOKS]
    ensures SummaryMoved(SummaryMoved(map[], b, 1), b, -1) != map[]
  {
    var once := SummaryMoved(map[], b, 1);
    assert LoadSummary(once, b.userID) == Adjusted(NO_BOOKS, CategoryOf(b), 1);
    hide CategoryOf;
    assert Adjusted(Adjusted(NO_BOOKS, CategoryOf(b), 1), CategoryOf(b), -1).categories == map[];
    var twice := SummaryMoved(once, b, -1);
    assert b.userID in twice;
  }

  // ---- content hashes ----

  /** Hashed books of an owner are members; every hash that has a member has a
      canonical entry, and it names one of them. */
  predicate Hashed(b: Book) {
    b.userID != "" && b.id != "" && b.contentHash != ""
  }

  ghost function Copies(books: Books, user: string, hash: string): set<string> {
    set id | id in books && Hashed(books[id]) && books[id].userID == user && books[id].contentHash == hash
  }

  ghost predicate Accounts(b: Book, k: string) {
    Hashed(b) && (k == MemberKey(b) || k == ContentKey(b.userID, b.contentHash))
  }

  ghost predicate MembersPresent(books: Books, content: Bucket) {
    forall id :: id in books && Hashed(books[id]) ==>
      MemberKey(books[id]) in content && content[MemberKey(books[id])] == id
  }

  ghost predicate CanonicalFor(books: Books, content: Bucket, user: string, hash: string) {
    var key, copies := ContentKey(user, hash), Copies(books, user, hash);
    (key in content <==> copies != {}) && (key in content ==> content[key] in copies)
  }

  ghost predicate CanonicalPresent(books: Books, content: Bucket) {
    forall u, h :: !HasNul(u) && !HasNul(h) ==> CanonicalFor(books, content, u, h)
  }

  ghost predicate NothingElse(books: Books, content: Bucket) {
    forall k :: k in content ==> exists id :: id in books && Accounts(books[id], k)
  }

  ghost predicate ContentExact(books: Books, content: Bucket) {
    MembersPresent(books, content) && CanonicalPresent(books, content) && NothingElse(books, content)
  }

  lemma JoinHasNul(x: string, y: string)
    ensures HasNul(x + NUL + y)
  {
    assert (x + NUL + y)[|x|] == '\0';
  }

  lemma ContentKeysDiffer(u: string, h: string, b: Book)
    requires !HasNul(u) && !HasNul(h) && IsBook(b)
    ensures ContentKey(u, h) != MemberKey(b)
    ensures ContentKey(u, h) == ContentKey(b.userID, b.contentHash) ==> u == b.userID && h == b.contentHash
  {
    JoinHasNul(b.userID, b.contentHash);
    if ContentKey(u, h) == MemberKey(b) {
      LastComponent(u, ContentKey(b.userID, b.contentHash), '\0', h, b.id);
      assert false;
    }
    if ContentKey(u, h) == ContentKey(b.userID, b.contentHash) {
      LastComponent(u, b.userID, '\0', h, b.contentHash);
    }
  }

  lemma MemberKeysDiffer(a: Book, b: Book)
    requires IsBook(a) && IsBook(b) && MemberKey(a) == MemberKey(b)
    ensures a.id == b.id && a.userID == b.userID && a.contentHash == b.contentHash
  {
    LastComponent(ContentKey(a.userID, a.contentHash), ContentKey(b.userID, b.contentHash), '\0', a.id, b.id);
    LastComponent(a.userID, b.userID, '\0', a.contentHash, b.contentHash);
  }

  lemma NoSeparators(b: Book)
    requires IsBook(b)
    ensures !HasNul(b.userID) && !HasNul(b.id) && !HasNul(b.contentHash)
  {
  }

  /** A membership key under (u, h) belongs to a copy of h owned by u. */
  lemma MemberUnder(u: string, h: string, b: Book)
    requires !HasNul(u) && !HasNul(h) && IsBook(b) && ContentKey(u, h) + NUL <= MemberKey(b)
    ensures b.userID == u && b.contentHash == h
  {
    NoSeparators(b);
    var rest := MemberKey(b)[|ContentKey(u, h)| + 1..];
    assert MemberKey(b) == u + NUL + (h + NUL + rest);
    assert MemberKey(b) == b.userID + NUL + (b.contentHash + NUL + b.id);
    BeforeJoined(u, h + NUL + rest, b.userID, b.contentHash + NUL + b.id);
    BeforeJoined(h, rest, b.contentHash, b.id);
  }

  /** No canonical key lies under another. */
  lemma CanonicalNotUnder(u: string, h: string, v: string, g: string)
    requires !HasNul(u) && !HasNul(h) && !HasNul(v) && !HasNul(g)
    ensures !(ContentKey(u, h) + NUL <= ContentKey(v, g))
  {
    if ContentKey(u, h) + NUL <= ContentKey(v, g) {
      var rest := ContentKey(v, g)[|ContentKey(u, h)| + 1..];
      assert ContentKey(v, g) == u + NUL + (h + NUL + rest);
      JoinHasNul(h, rest);
      BeforeJoined(u, h + NUL + rest, v, g);
      assert false;
    }
  }

  /** The keys under one canonical key are the membership entries of its copies. */
  lemma PrefixedMember(books: Books, content: Bucket, u: string, h: string, k: string)
    requires WellKeyed(books) && ContentExact(books, content)
    requires !HasNul(u) && !HasNul(h) && k in content && ContentKey(u, h) + NUL <= k
    ensures content[k] in Copies(books, u, h) && k == MemberKey(books[content[k]])
  {
    hide MemberKey, ContentKey, Hashed, IsOwner, CanonicalPresent;
    var id :| id in books && Accounts(books[id], k);
    NoSeparators(books[id]);
    if k == MemberKey(books[id]) {
      MemberUnder(u, h, books[id]);
    } else {
      CanonicalNotUnder(u, h, books[id].userID, books[id].contentHash);
    }
  }

  /** What addBookToContentIndex leaves in the bucket. */
  function ContentAdded(content: Bucket, b: Book): Bucket {
    var key := ContentKey(b.userID, b.contentHash);
    if !Hashed(b) then content
    else if key in content then content[MemberKey(b) := b.id]
    else content[MemberKey(b) := b.id][key := b.id]
  }

  lemma ContentInsert(books: Books, content: Bucket, b: Book)
    requires WellKeyed(books) && IsBook(b) && b.id !in books && ContentExact(books, content)
    ensures ContentExact(books[b.id := b], ContentAdded(content, b))
  {
    hide Hashed, MemberKey, ContentKey, IsOwner, ContentAdded;
    var after, content' := books[b.id := b], ContentAdded(content, b);
    assert !Hashed(b) ==> ContentExact(after, content') by {
      hide MembersPresent, CanonicalPresent, NothingElse;
      if !Hashed(b) { UnhashedInsert(books, content, b); }
    }
    if Hashed(b) {
      MembersAfterInsert(books, content, b);
      assert CanonicalPresent(after, content') by {
        hide MembersPresent, NothingElse;
        forall u, h | !HasNul(u) && !HasNul(h) ensures CanonicalFor(after, content', u, h) {
          CanonicalAfterInsert(books, content, b, u, h);
        }
      }
      NothingElseAfterInsert(books, content, b);
    }
  }

  lemma UnhashedInsert(books: Books, content: Bucket, b: Book)
    requires b.id !in books && !Hashed(b) && ContentExact(books, content)
    ensures ContentExact(books[b.id := b], ContentAdded(content, b))
  {
    hide MemberKey, ContentKey, ContentExact, Hashed;
    ContentSameCopies(books, books[b.id := b], content);
  }

  lemma NothingElseAfterInsert(books: Books, content: Bucket, b: Book)
    requires b.id !in books && Hashed(b) && NothingElse(books, content)
    ensures NothingElse(books[b.id := b], ContentAdded(content, b))
  {
    hide MemberKey, ContentKey, Hashed;
    var after, content' := books[b.id := b], ContentAdded(content, b);
    forall k | k in content' ensures exists id :: id in after && Accounts(after[id], k) {
      if k in content {
        var id :| id in books && Accounts(books[id], k);
        assert Accounts(after[id], k);
      } else {
        assert Accounts(after[b.id], k);
      }
    }
  }

  lemma MembersAfterInsert(books: Books, content: Bucket, b: Book)
    requires WellKeyed(books) && IsBook(b) && b.id !in books && MembersPresent(books, content) && Hashed(b)
    ensures MembersPresent(books[b.id := b], ContentAdded(content, b))
  {
    hide MemberKey, ContentKey, IsOwner, Hashed;
    NoSeparators(b);
    ContentKeysDiffer(b.userID, b.contentHash, b);
    forall id | id in books
      ensures MemberKey(books[id]) != MemberKey(b) && MemberKey(books[id]) != ContentKey(b.userID, b.contentHash)
    {
      if MemberKey(books[id]) == MemberKey(b) { MemberKeysDiffer(books[id], b); }
      ContentKeysDiffer(b.userID, b.contentHash, books[id]);
    }
  }

  lemma CanonicalAfterInsert(books: Books, content: Bucket, b: Book, u: string, h: string)
    requires IsBook(b) && b.id !in books && Hashed(b) && !HasNul(u) && !HasNul(h)
    requires CanonicalFor(books, content, u, h)
    ensures CanonicalFor(books[b.id := b], ContentAdded(content, b), u, h)
  {
    hide MemberKey, ContentKey, IsOwner, Hashed;
    ContentKeysDiffer(u, h, b);
    var after := books[b.id := b];
    if u == b.userID && h == b.contentHash {
      assert Copies(after, u, h) == Copies(books, u, h) + {b.id};
    } else {
      assert Copies(after, u, h) == Copies(books, u, h);
    }
  }

  ghost predicate SameHashed(books: Books, after: Books) {
    forall id :: (id in books && Hashed(books[id])) || (id in after && Hashed(after[id])) ==>
      id in books && id in after && after[id] == books[id]
  }

  /** Books without a hash or an owner do not matter to the content bucket. */
  lemma ContentSameCopies(books: Books, after: Books, content: Bucket)
    requires ContentExact(books, content) && SameHashed(books, after)
    ensures ContentExact(after, content)
  {
    hide MemberKey, ContentKey, Hashed;
    hide SameHashed, MembersPresent, NothingElse, CanonicalFor;
    forall u, h | !HasNul(u) && !HasNul(h) ensures CanonicalFor(after, content, u, h) {
      assert CanonicalFor(books, content, u, h);
      CanonicalSame(books, after, content, u, h);
    }
    NothingElseSame(books, after, content);
    MembersSame(books, after, content);
  }

  lemma MembersSame(books: Books, after: Books, content: Bucket)
    requires MembersPresent(books, content) && SameHashed(books, after)
    ensures MembersPresent(after, content)
  {
    hide MemberKey, Hashed;
  }

  lemma CanonicalSame(books: Books, after: Books, content: Bucket, u: string, h: string)
    requires CanonicalFor(books, content, u, h) && SameHashed(books, after)
    ensures CanonicalFor(after, content, u, h)
  {
    hide Hashed, ContentKey;
    assert Copies(after, u, h) == Copies(books, u, h);
  }

  lemma NothingElseSame(books: Books, after: Books, content: Bucket)
    requires NothingElse(books, content) && SameHashed(books, after)
    ensures NothingElse(after, content)
  {
    hide MemberKey, ContentKey, Hashed;
    forall k | k in content ensures exists id :: id in after && Accounts(after[id], k) {
      var id :| id in books && Accounts(books[id], k);
      assert id in after && Accounts(after[id], k);
    }
  }

  /** What removeBookFromContentIndex leaves: when the canonical copy goes, some
      remaining member is promoted, and the canonical entry goes with the last one. */
  ghost predicate ContentRemoved(content: Bucket, b: Book, content': Bucket) {
    var key, left := ContentKey(b.userID, b.contentHash), content - {MemberKey(b)};
    if key in left && left[key] != b.id then content' == left
    else if exists k :: k in left && key + NUL <= k then
      exists k :: k in left && key + NUL <= k && content' == left[key := left[k]]
    else content' == left - {key}
  }

  lemma ContentRemove(books: Books, content: Bucket, id: string, content': Bucket)
    requires WellKeyed(books) && id in books && Hashed(books[id]) && ContentExact(books, content)
    requires ContentRemoved(content, books[id], content')
    ensures ContentExact(books - {id}, content')
  {
    hide ContentRemoved, Hashed, MemberKey, ContentKey, MembersPresent, CanonicalPresent, NothingElse;
    CanonicalAfterRemove(books, content, id, content');
    OthersAfterRemove(books, content, id, content');
    MembersRemain(books, content, id, content');
    CanonicalRemain(books, content, id, content');
    NothingElseRemains(books, content, id, content');
  }

  ghost predicate OnlyMemberLeft(b: Book, content: Bucket, content': Bucket) {
    && MemberKey(b) !in content'
    && forall k :: k != ContentKey(b.userID, b.contentHash) && k != MemberKey(b) ==>
         (k in content' <==> k in content) && (k in content' ==> content'[k] == content[k])
  }

  lemma MembersRemain(books: Books, content: Bucket, id: string, content': Bucket)
    requires WellKeyed(books) && id in books && MembersPresent(books, content)
    requires OnlyMemberLeft(books[id], content, content')
    ensures MembersPresent(books - {id}, content')
  {
    hide MemberKey, ContentKey, Hashed, IsOwner;
    var b := books[id];
    NoSeparators(b);
    forall o | o in books && o != id && Hashed(books[o])
      ensures MemberKey(books[o]) in content' && content'[MemberKey(books[o])] == o
    {
      ContentKeysDiffer(b.userID, b.contentHash, books[o]);
      if MemberKey(books[o]) == MemberKey(b) { MemberKeysDiffer(books[o], b); }
    }
  }

  lemma CanonicalRemain(books: Books, content: Bucket, id: string, content': Bucket)
    requires WellKeyed(books) && id in books && CanonicalPresent(books, content)
    requires OnlyMemberLeft(books[id], content, content')
    requires CanonicalFor(books - {id}, content', books[id].userID, books[id].contentHash)
    ensures CanonicalPresent(books - {id}, content')
  {
    hide MemberKey, ContentKey, Hashed, IsOwner;
    var b, after := books[id], books - {id};
    forall u, h | !HasNul(u) && !HasNul(h) ensures CanonicalFor(after, content', u, h) {
      if u != b.userID || h != b.contentHash {
        ContentKeysDiffer(u, h, b);
        assert CanonicalFor(books, content, u, h);
        assert Copies(after, u, h) == Copies(books, u, h);
      }
    }
  }

  lemma NothingElseRemains(books: Books, content: Bucket, id: string, content': Bucket)
    requires WellKeyed(books) && id in books && NothingElse(books, content)
    requires OnlyMemberLeft(books[id], content, content')
    requires CanonicalFor(books - {id}, content', books[id].userID, books[id].contentHash)
    ensures NothingElse(books - {id}, content')
  {
    hide MemberKey, ContentKey, IsOwner, Hashed;
    var b, after := books[id], books - {id};
    forall k | k in content' ensures exists o :: o in after && Accounts(after[o], k) {
      var key := ContentKey(b.userID, b.contentHash);
      if k == key {
        assert Accounts(after[content'[key]], k);
      } else {
        var o :| o in books && Accounts(books[o], k);
        assert Accounts(after[o], k);
      }
    }
  }

  /** Apart from the canonical key, removal only takes away the membership entry. */
  lemma OthersAfterRemove(books: Books, content: Bucket, id: string, content': Bucket)
    requires WellKeyed(books) && id in books
    requires ContentRemoved(content, books[id], content')
    ensures OnlyMemberLeft(books[id], content, content')
  {
    hide MemberKey, ContentKey, Hashed, IsOwner;
    NoSeparators(books[id]);
    ContentKeysDiffer(books[id].userID, books[id].contentHash, books[id]);
  }

  lemma CanonicalAfterRemove(books: Books, content: Bucket, id: string, content': Bucket)
    requires WellKeyed(books) && id in books && Hashed(books[id]) && ContentExact(books, content)
    requires ContentRemoved(content, books[id], content')
    ensures CanonicalFor(books - {id}, content', books[id].userID, books[id].contentHash)
  {
    hide MemberKey, IsOwner, Hashed, ContentKey, NothingElse;
    var b := books[id];
    var u, h := b.userID, b.contentHash;
    var key, left, copies := ContentKey(u, h), content - {MemberKey(b)}, Copies(books, u, h);
    NoSeparators(b);
    ContentKeysDiffer(u, h, b);
    assert CanonicalFor(books, content, u, h);
    assert content[MemberKey(b)] == id;
    assert Copies(books - {id}, u, h) == copies - {id};
    forall k | k in left && key + NUL <= k ensures left[k] in copies - {id} {
      PrefixedMember(books, content, u, h, k);
    }
    if o :| o in copies - {id} {
      assert MemberKey(books[o]) in content && content[MemberKey(books[o])] == o;
      assert MemberKey(books[o]) in left;
      MemberKeyPrefix(books[o]);
      assert books[o].userID == u && books[o].contentHash == h;
      assert exists k :: k in left && key + NUL <= k by { assert key + NUL <= MemberKey(books[o]); }
      if key !in left || left[key] == id {
        var k :| k in left && key + NUL <= k && content' == left[key := left[k]];
        assert content'[key] in copies - {id};
      }
    } else {
      assert copies - {id} == {};
      assert key in left ==> left[key] in copies && left[key] !in copies - {id};
      assert forall k :: k in left ==> !(key + NUL <= k);
      assert content' == left - {key};
    }
  }

  lemma MemberKeyPrefix(b: Book)
    ensures ContentKey(b.userID, b.contentHash) + NUL <= MemberKey(b)
  {
  }

  // ---- progress by time ----

  type ProgressBucket = map<string, Progress>

  predicate Timed(p: Progress) {
    p.userID != "" && p.bookID != ""
  }

  function ProgressTimePrefix(user: string): string {
    user + NUL
  }

  function TimeKey(p: Progress): string {
    KeyFor(ProgressTimePrefix(p.userID) + Digits19(Clamped(p.updatedAt)), p.bookID)
  }

  ghost predicate ProgressKeyed(progress: ProgressBucket) {
    forall k <- progress ::
      && k == OwnerKey(progress[k].userID, progress[k].bookID)
      && IsOwner(progress[k].userID) && IsId(progress[k].bookID)
  }

  ghost predicate TimeExact(progress: ProgressBucket, index: Bucket) {
    && (forall k :: k in progress && Timed(progress[k]) ==>
          TimeKey(progress[k]) in index && index[TimeKey(progress[k])] == progress[k].bookID)
    && (forall t :: t in index ==> exists k :: k in progress && Timed(progress[k]) && t == TimeKey(progress[k]))
  }

  lemma OwnerKeysDiffer(u: string, i: string, v: string, j: string)
    requires IsOwner(u) && IsOwner(v) && IsOwner(i) && IsOwner(j) && OwnerKey(u, i) == OwnerKey(v, j)
    ensures u == v && i == j
  {
    LastComponent(u, v, ':', i, j);
  }

  lemma TimeKeysDiffer(p: Progress, q: Progress)
    requires IsOwner(p.userID) && IsOwner(q.userID) && IsOwner(p.bookID) && IsOwner(q.bookID)
    requires TimeKey(p) == TimeKey(q)
    ensures p.userID == q.userID && p.bookID == q.bookID && Clamped(p.updatedAt) == Clamped(q.updatedAt)
  {
    var x, y := Digits19(Clamped(p.updatedAt)), Digits19(Clamped(q.updatedAt));
    LastComponent(p.userID + NUL + x, q.userID + NUL + y, '\0', p.bookID, q.bookID);
    BeforeJoined(p.userID, x, q.userID, y);
    TimeKeyOrder(Clamped(p.updatedAt), Clamped(q.updatedAt));
  }

  /** A record leaves: only its own time key goes. */
  lemma TimeRemove(progress: ProgressBucket, index: Bucket, k: string)
    requires ProgressKeyed(progress) && TimeExact(progress, index) && k in progress
    ensures ProgressKeyed(progress - {k})
    ensures TimeExact(progress - {k}, if Timed(progress[k]) then index - {TimeKey(progress[k])} else index)
  {
    hide TimeKey, IsOwner, OwnerKey;
    var p, after := progress[k], progress - {k};
    forall o | o in after ensures TimeKey(after[o]) != TimeKey(p) {
      if TimeKey(after[o]) == TimeKey(p) { TimeKeysDiffer(after[o], p); }
    }
    var index' := if Timed(p) then index - {TimeKey(p)} else index;
    forall t | t in index' ensures exists o :: o in after && Timed(after[o]) && t == TimeKey(after[o]) {
      var o :| o in progress && Timed(progress[o]) && t == TimeKey(progress[o]);
      assert o in after && after[o] == progress[o];
    }
  }

  lemma TimeInsert(progress: ProgressBucket, index: Bucket, p: Progress)
    requires ProgressKeyed(progress) && TimeExact(progress, index)
    requires IsOwner(p.userID) && IsId(p.bookID) && OwnerKey(p.userID, p.bookID) !in progress
    ensures ProgressKeyed(progress[OwnerKey(p.userID, p.bookID) := p])
    ensures TimeExact(progress[OwnerKey(p.userID, p.bookID) := p],
                      if Timed(p) then index[TimeKey(p) := p.bookID] else index)
  {
    hide TimeKey, IsOwner, OwnerKey;
    var key := OwnerKey(p.userID, p.bookID);
    var after := progress[key := p];
    forall o | o in progress ensures TimeKey(progress[o]) != TimeKey(p) {
      if TimeKey(progress[o]) == TimeKey(p) { TimeKeysDiffer(progress[o], p); }
    }
    var index' := if Timed(p) then index[TimeKey(p) := p.bookID] else index;
    forall t | t in index' ensures exists o :: o in after && Timed(after[o]) && t == TimeKey(after[o]) {
      if t in index {
        var o :| o in progress && Timed(progress[o]) && t == TimeKey(progress[o]);
        assert o in after && after[o] == progress[o];
      } else {
        assert after[key] == p;
      }
    }
  }

  lemma TimeUnique(progress: ProgressBucket, x: Bucket, y: Bucket)
    requires TimeExact(progress, x) && TimeExact(progress, y)
    ensures x == y
  {
    hide TimeKey;
    forall t | t in x ensures t in y && x[t] == y[t] {
      var k :| k in progress && Timed(progress[k]) && t == TimeKey(progress[k]);
    }
    forall t | t in y ensures t in x {
      var k :| k in progress && Timed(progress[k]) && t == TimeKey(progress[k]);
    }
    assert x.Keys == y.Keys;
  }

  // ---- replacing one record ----

  /** The bucket after the old entries of a record, if any, made way for the new ones. */
  ghost function Patched(lower: Lowering, v: View, books: Books, bucket: Bucket, b: Book): Bucket {
    (if b.id in books then bucket - Keys(lower, v, books[b.id]) else bucket) + Entries(lower, v, b)
  }

  lemma KeysPresent(lower: Lowering, v: View, books: Books, bucket: Bucket, id: string)
    requires id in books && Derived(lower, v, books, bucket)
    ensures Keys(lower, v, books[id]) <= bucket.Keys
  {
    hide Keys, Value;
  }

  lemma DerivedEntry(lower: Lowering, v: View, books: Books, bucket: Bucket, id: string, k: string)
    requires id in books && Derived(lower, v, books, bucket) && k in Keys(lower, v, books[id])
    ensures k in bucket && bucket[k] == Value(lower, v, books[id])
  {
    hide Keys, Value;
  }

  lemma DerivedPatch(lower: Lowering, v: View, books: Books, bucket: Bucket, b: Book)
    requires WellKeyed(books) && IsBook(b) && Derived(lower, v, books, bucket)
    ensures Derived(lower, v, books[b.id := b], Patched(lower, v, books, bucket, b))
    ensures b.id in books ==> Keys(lower, v, books[b.id]) <= bucket.Keys
    ensures (if b.id in books then bucket - Keys(lower, v, books[b.id]) else bucket).Keys !! Keys(lower, v, b)
  {
    hide Keys, Entries, IsBook, Derived;
    if b.id in books {
      KeysPresent(lower, v, books, bucket, b.id);
      DerivedRemove(lower, v, books, bucket, b.id);
      KeysFree(lower, v, books - {b.id}, bucket - Keys(lower, v, books[b.id]), b);
      DerivedInsert(lower, v, books - {b.id}, bucket - Keys(lower, v, books[b.id]), b);
      assert (books - {b.id})[b.id := b] == books[b.id := b];
    } else {
      KeysFree(lower, v, books, bucket, b);
      DerivedInsert(lower, v, books, bucket, b);
    }
  }

  lemma DerivedReplace(lower: Lowering, v: View, books: Books, bucket: Bucket, b: Book)
    requires WellKeyed(books) && IsBook(b) && b.id in books && Derived(lower, v, books, bucket)
    ensures Derived(lower, v, books[b.id := b], (bucket - Keys(lower, v, books[b.id])) + Entries(lower, v, b))
  {
    hide Keys, Entries, IsBook, Derived;
    DerivedPatch(lower, v, books, bucket, b);
  }

  lemma CountsPatch(lower: Lowering, books: Books, was: Counts, mid: Counts, now: Counts, b: Book)
    requires CountsExact(lower, books, was)
    requires if b.id in books then Lowered(was, GramPrefixes(lower, books[b.id]), mid) else mid == was
    requires Raised(mid, GramPrefixes(lower, b), now)
    ensures CountsExact(lower, books[b.id := b], now)
  {
    hide GramPrefixes, CountsExact, Lowered, Raised;
    if b.id in books {
      CountsRemove(lower, books, was, b.id, mid);
      CountsInsert(lower, books - {b.id}, mid, b, now);
      assert (books - {b.id})[b.id := b] == books[b.id := b];
    } else {
      CountsInsert(lower, books, was, b, now);
    }
  }

  /** The backlog entry under a book's key is that book's own. */
  lemma MissingKeyOwner(lower: Lowering, books: Books, bucket: Bucket, b: Book)
    requires WellKeyed(books) && IsBook(b) && Derived(lower, MissingHash, books, bucket)
    requires SearchKey(b.userID, b.id) in bucket
    ensures b.id in books && SearchKey(b.userID, b.id) in Keys(lower, MissingHash, books[b.id])
  {
    var k := SearchKey(b.userID, b.id);
    var id :| id in books && k in Keys(lower, MissingHash, books[id]);
    LastComponent(books[id].userID, b.userID, '\0', id, b.id);
  }

  lemma MissingPatched(lower: Lowering, books: Books, bucket: Bucket, b: Book)
    requires WellKeyed(books) && IsBook(b) && Derived(lower, MissingHash, books, bucket)
    ensures ((if b.id in books then bucket - {SearchKey(books[b.id].userID, b.id)} else bucket)
             - {SearchKey(b.userID, b.id)}) + Entries(lower, MissingHash, b)
            == Patched(lower, MissingHash, books, bucket, b)
  {
    hide SearchKey, Derived;
    if SearchKey(b.userID, b.id) in bucket { MissingKeyOwner(lower, books, bucket, b); }
    if b.id in books && SearchKey(books[b.id].userID, b.id) in bucket {
      MissingKeyOwner(lower, books, bucket, books[b.id]);
    }
  }

  lemma MissingRemoved(lower: Lowering, books: Books, bucket: Bucket, id: string)
    requires WellKeyed(books) && id in books && Derived(lower, MissingHash, books, bucket)
    ensures bucket - {SearchKey(books[id].userID, id)} == bucket - Keys(lower, MissingHash, books[id])
  {
    hide SearchKey, Derived;
    if SearchKey(books[id].userID, id) in bucket { MissingKeyOwner(lower, books, bucket, books[id]); }
  }

  /** removeBookFromContentIndex on any record. */
  ghost predicate ContentDropped(content: Bucket, b: Book, content': Bucket) {
    if b.userID == "" || b.contentHash == "" then content' == content else ContentRemoved(content, b, content')
  }

  lemma ContentDrop(books: Books, content: Bucket, id: string, content': Bucket)
    requires WellKeyed(books) && id in books && ContentExact(books, content)
    requires ContentDropped(content, books[id], content')
    ensures ContentExact(books - {id}, content')
  {
    hide ContentExact, ContentRemoved;
    if Hashed(books[id]) {
      ContentRemove(books, content, id, content');
    } else {
      ContentSameCopies(books, books - {id}, content);
    }
  }

  lemma ContentPatch(books: Books, content: Bucket, mid: Bucket, b: Book)
    requires WellKeyed(books) && IsBook(b) && ContentExact(books, content)
    requires if b.id in books then ContentDropped(content, books[b.id], mid) else mid == content
    ensures ContentExact(books[b.id := b], ContentAdded(mid, b))
  {
    hide ContentExact, ContentDropped, ContentAdded, IsBook;
    if b.id in books {
      ContentDrop(books, content, b.id, mid);
      ContentInsert(books - {b.id}, mid, b);
      assert (books - {b.id})[b.id := b] == books[b.id := b];
    } else {
      ContentInsert(books, content, b);
    }
  }

  /** adjustLibrarySummary on the whole bucket. */
  function SummaryMoved(bucket: map<string, Summary>, b: Book, delta: int): map<string, Summary> {
    if b.userID == "" then bucket
    else bucket[b.userID := Adjusted(LoadSummary(bucket, b.userID), CategoryOf(b), delta)]
  }

  lemma SummaryDrop(books: Books, bucket: map<string, Summary>, id: string)
    requires id in books && SummaryExact(books, bucket)
    ensures SummaryExact(books - {id}, SummaryMoved(bucket, books[id], -1))
  {
    hide Adjusted, CategoryOf, Summarizes;
    if books[id].userID == "" {
      forall u | u != "" ensures Summarizes(LoadSummary(bucket, u), books - {id}, u) {
        SummarizesRemove(LoadSummary(bucket, u), books, id, u);
      }
    } else {
      SummaryRemove(books, bucket, id);
    }
  }

  lemma SummaryAdd(books: Books, bucket: map<string, Summary>, b: Book)
    requires b.id !in books && SummaryExact(books, bucket)
    ensures SummaryExact(books[b.id := b], SummaryMoved(bucket, b, 1))
  {
    hide Adjusted, CategoryOf, Summarizes;
    if b.userID == "" {
      forall u | u != "" ensures Summarizes(LoadSummary(bucket, u), books[b.id := b], u) {
        SummarizesInsert(LoadSummary(bucket, u), books, b, u);
      }
    } else {
      SummaryInsert(books, bucket, b);
    }
  }

  lemma SummaryPatch(books: Books, bucket: map<string, Summary>, b: Book)
    requires SummaryExact(books, bucket)
    ensures SummaryExact(books[b.id := b],
              SummaryMoved(if b.id in books then SummaryMoved(bucket, books[b.id], -1) else bucket, b, 1))
  {
    hide SummaryExact, SummaryMoved;
    if b.id in books {
      SummaryDrop(books, bucket, b.id);
      SummaryAdd(books - {b.id}, SummaryMoved(bucket, books[b.id], -1), b);
      assert (books - {b.id})[b.id := b] == books[b.id := b];
    } else {
      SummaryAdd(books, bucket, b);
    }
  }

  function OwnerAdded(bucket: Bucket, id: string, user: string): Bucket {
    if user == "" || id == "" then bucket else bucket[OwnerKey(user, id) := ""]
  }

  function OwnerDropped(bucket: Bucket, id: string, user: string): Bucket {
    if user == "" || id == "" then bucket else bucket - {OwnerKey(user, id)}
  }

  lemma OwnerEntry(lower: Lowering, books: Books, bucket: Bucket, id: string)
    requires WellKeyed(books) && Derived(lower, ByOwner, books, bucket) && id in books && books[id].userID != ""
    ensures OwnerKey(books[id].userID, id) in bucket && bucket[OwnerKey(books[id].userID, id)] == ""
  {
    assert OwnerKey(books[id].userID, id) in Keys(lower, ByOwner, books[id]);
  }

  /** SaveBook touches the ownership bucket only when the owner changes. */
  lemma OwnerPatched(lower: Lowering, books: Books, bucket: Bucket, b: Book)
    requires WellKeyed(books) && IsBook(b) && Derived(lower, ByOwner, books, bucket)
    ensures var before := if b.id in books then books[b.id].userID else "";
            Patched(lower, ByOwner, books, bucket, b) ==
              if before == b.userID then bucket
              else OwnerAdded(OwnerDropped(bucket, b.id, before), b.id, b.userID)
  {
    hide OwnerKey, IsOwner, Derived;
    if b.id in books && books[b.id].userID != "" {
      OwnerEntry(lower, books, bucket, b.id);
      OwnerReplaced(lower, books[b.id], bucket, b);
    } else {
      if b.id in books { assert bucket - Keys(lower, ByOwner, books[b.id]) == bucket; }
      OwnerEntered(lower, bucket, b);
    }
  }

  lemma OwnerEntered(lower: Lowering, bucket: Bucket, b: Book)
    requires b.id != ""
    ensures bucket + Entries(lower, ByOwner, b) == OwnerAdded(bucket, b.id, b.userID)
  {
    hide OwnerKey;
  }

  lemma OwnerReplaced(lower: Lowering, a: Book, bucket: Bucket, b: Book)
    requires a.id == b.id && a.id != "" && a.userID != ""
    requires OwnerKey(a.userID, a.id) in bucket && bucket[OwnerKey(a.userID, a.id)] == ""
    ensures (bucket - Keys(lower, ByOwner, a)) + Entries(lower, ByOwner, b) ==
      if a.userID == b.userID then bucket else OwnerAdded(OwnerDropped(bucket, b.id, a.userID), b.id, b.userID)
  {
    hide OwnerKey;
    OwnerEntered(lower, bucket - Keys(lower, ByOwner, a), b);
  }

  // ---- records whose keys do not change, or change in one sort only ----

  /** Filling in a hash moves no entry except the backlog's. */
  lemma HashKeepsKeys(lower: Lowering, v: View, b: Book, hash: string)
    requires v != MissingHash
    ensures Keys(lower, v, b.(contentHash := hash)) == Keys(lower, v, b)
    ensures Value(lower, v, b.(contentHash := hash)) == Value(lower, v, b)
    ensures GramPrefixes(lower, b.(contentHash := hash)) == GramPrefixes(lower, b)
  {
    hide SortIndexKey, CategoryIndexKey, SearchText, OwnerKey, SearchKey, GramKey, GramPrefix, GramsOf;
    HashKeepsTexts(lower, b, hash);
  }

  lemma HashKeepsTexts(lower: Lowering, b: Book, hash: string)
    ensures var after := b.(contentHash := hash);
            && SearchText(lower, after) == SearchText(lower, b)
            && (forall s :: SortIndexKey(lower, after, s) == SortIndexKey(lower, b, s)
                         && CategoryIndexKey(lower, after, s) == CategoryIndexKey(lower, b, s))
  {
    hide KeyFor, SortText, InvertedTimestamp, Normalize;
  }

  lemma ReadKeepsKeys(lower: Lowering, v: View, b: Book, t: Instant)
    requires v != BySort && v != ByCategory
    ensures Keys(lower, v, b.(lastReadAt := Some(t))) == Keys(lower, v, b)
    ensures Value(lower, v, b.(lastReadAt := Some(t))) == Value(lower, v, b)
    ensures GramPrefixes(lower, b.(lastReadAt := Some(t))) == GramPrefixes(lower, b)
  {
  }

  lemma CategoryKeepsKeys(lower: Lowering, v: View, b: Book, c: Option<string>)
    requires v == ByOwner || v == MissingHash || v == ByText
    ensures Keys(lower, v, b.(category := c)) == Keys(lower, v, b)
    ensures v != ByText ==> Value(lower, v, b.(category := c)) == Value(lower, v, b)
  {
  }

  /** Overwriting the search text is the same as replacing the entry. */
  lemma TextEntryReplaced(lower: Lowering, b: Book, c: Option<string>, bucket: Bucket)
    ensures bucket + Entries(lower, ByText, b.(category := c)) ==
            (bucket - Keys(lower, ByText, b)) + Entries(lower, ByText, b.(category := c))
  {
    CategoryKeepsKeys(lower, ByText, b, c);
    hide Keys, Value;
  }

  /** updateBookSortKey: of the four keys of a book only recent_read follows LastReadAt. */
  lemma ReadMovesOneKey(lower: Lowering, v: View, b: Book, t: Instant, bucket: Bucket)
    requires v in {BySort, ByCategory} && Listed(b)
    requires forall k <- Keys(lower, v, b) :: k in bucket && bucket[k] == b.id
    ensures var after := b.(lastReadAt := Some(t));
            var k, k' := SortKeyIn(lower, v, b, 0), SortKeyIn(lower, v, after, 0);
            (bucket - Keys(lower, v, b)) + Entries(lower, v, after) ==
              if k == k' then bucket else (bucket - {k})[k' := b.id]
  {
    hide Keys, SortKeyIn;
    var after := b.(lastReadAt := Some(t));
    SortKeysIn(lower, v, b);
    SortKeysIn(lower, v, after);
    OtherKeysStay(lower, v, b, t);
    ReadKeyApart(lower, v, b, t);
  }

  lemma NoEntries(lower: Lowering, v: View, b: Book)
    requires v in {BySort, ByCategory} && !Listed(b)
    ensures Keys(lower, v, b) == {}
  {
  }

  lemma ReadKeyParts(lower: Lowering, v: View, b: Book) returns (x: string)
    requires v in {BySort, ByCategory}
    ensures SortKeyIn(lower, v, b, 0) == x + NUL + b.id
  {
    hide SortValue, CategoryOf, SortPrefix, CategoryPrefix;
    x := if v.BySort? then SortPrefix(b.userID, RecentRead) + SortValue(lower, b, RecentRead)
         else CategoryPrefix(b.userID, CategoryOf(b), RecentRead) + SortValue(lower, b, RecentRead);
  }

  /** The read key of an unlisted book belongs to no book. */
  lemma ReadKeyOfNobody(lower: Lowering, v: View, books: Books, bucket: Bucket, b: Book)
    requires v in {BySort, ByCategory} && WellKeyed(books) && b.id in books && books[b.id] == b && b.userID == ""
    requires SortKeyIn(lower, v, b, 0) in bucket
    ensures !Derived(lower, v, books, bucket)
  {
    hide Keys, SortKeyIn, Value;
    var k := SortKeyIn(lower, v, b, 0);
    var y := ReadKeyParts(lower, v, b);
    forall id | id in books
      ensures k !in Keys(lower, v, books[id])
    {
      if k in Keys(lower, v, books[id]) {
        var x := KeyEndsInId(lower, v, books[id], k);
        assert !HasNul(books[id].id) && !HasNul(b.id);
        LastComponent(x, y, '\0', books[id].id, b.id);
        NoEntries(lower, v, b);
      }
    }
  }

  /** updateBookSortKey has no guard for a book without an owner, which the sort buckets do not list:
      it keeps them exact exactly when the book has an owner or its key does not change. */
  lemma ReadKeepsExactIff(lower: Lowering, v: View, books: Books, bucket: Bucket, a: Book, t: Instant)
    requires v in {BySort, ByCategory} && WellKeyed(books) && Derived(lower, v, books, bucket)
    requires a.id in books && books[a.id] == a
    ensures var b := a.(lastReadAt := Some(t));
            var k, k' := SortKeyIn(lower, v, a, 0), SortKeyIn(lower, v, b, 0);
            Derived(lower, v, books[a.id := b], if k == k' then bucket else (bucket - {k})[k' := a.id])
            <==> a.userID != "" || k == k'
  {
    hide Keys, SortKeyIn, Derived, Entries;
    var b := a.(lastReadAt := Some(t));
    var k, k' := SortKeyIn(lower, v, a, 0), SortKeyIn(lower, v, b, 0);
    if a.userID != "" {
      forall key <- Keys(lower, v, a)
        ensures key in bucket && bucket[key] == a.id
      {
        DerivedEntry(lower, v, books, bucket, a.id, key);
      }
      ReadMovesOneKey(lower, v, a, t, bucket);
      DerivedReplace(lower, v, books, bucket, b);
    } else if k == k' {
      NoEntries(lower, v, a);
      NoEntries(lower, v, b);
      DerivedUnaffected(lower, v, books, bucket, b);
    } else {
      ReadKeyOfNobody(lower, v, books[a.id := b], (bucket - {k})[k' := a.id], b);
    }
  }

  /** The recent_read key depends on the clamped time of the last reading. */
  lemma ReadKeySame(lower: Lowering, v: View, a: Book, t: Instant)
    requires v in {BySort, ByCategory}
    ensures SortKeyIn(lower, v, a, 0) == SortKeyIn(lower, v, a.(lastReadAt := Some(t)), 0)
            <==> Clamped(LastRead(a)) == Clamped(t)
  {
    hide CategoryPrefix, SortPrefix, InvertedTimestamp;
    var b := a.(lastReadAt := Some(t));
    InvertedOrder(LastRead(a), t);
    var x, y := InvertedTimestamp(LastRead(a)), InvertedTimestamp(t);
    var prefix := if v.BySort? then SortPrefix(a.userID, RecentRead)
                  else CategoryPrefix(a.userID, CategoryOf(a), RecentRead);
    assert SortKeyIn(lower, v, a, 0) == KeyFor(prefix + x, a.id);
    assert SortKeyIn(lower, v, b, 0) == KeyFor(prefix + y, a.id);
    Cancel(prefix, x, y, a.id);
  }

  lemma Cancel(p: string, x: string, y: string, id: string)
    ensures KeyFor(p + x, id) == KeyFor(p + y, id) <==> x == y
  {
    var k, l := KeyFor(p + x, id), KeyFor(p + y, id);
    if k == l {
      assert |x| == |y|;
      assert x == k[|p|..|p| + |x|] && y == l[|p|..|p| + |y|];
    }
  }

  lemma OtherKeysStay(lower: Lowering, v: View, b: Book, t: Instant)
    requires v in {BySort, ByCategory}
    ensures forall i :: 1 <= i < 4 ==> SortKeyIn(lower, v, b.(lastReadAt := Some(t)), i) == SortKeyIn(lower, v, b, i)
  {
  }

  /** The sort name leads the key, so different sorts never share one. */
  lemma SortKeysDiffer(lower: Lowering, v: View, a: Book, i: nat, b: Book, j: nat)
    requires i < |SUPPORTED_SORTS| && j < |SUPPORTED_SORTS|
    ensures SortKeyIn(lower, v, a, i) == SortKeyIn(lower, v, b, j) ==> i == j
  {
    hide SortKeyIn;
    var s, t := SUPPORTED_SORTS[i], SUPPORTED_SORTS[j];
    var x := NameLeads(lower, v, a, i);
    var y := NameLeads(lower, v, b, j);
    SortNamesDiffer(s, t);
    SortNamesDiffer(t, s);
    BeforeJoined(s.Name(), x, t.Name(), y);
  }

  lemma NameLeads(lower: Lowering, v: View, b: Book, i: nat) returns (x: string)
    requires i < |SUPPORTED_SORTS|
    ensures SortKeyIn(lower, v, b, i) == SUPPORTED_SORTS[i].Name() + NUL + x
  {
    hide SortValue, CategoryOf, BookSort.Name;
    var s := SUPPORTED_SORTS[i];
    if v.BySort? {
      x := LedBy(s.Name(), b.userID + NUL, SortValue(lower, b, s), b.id);
    } else {
      var owner, tag := b.userID + NUL, Base64.CategoryTag(TrimSpace(CategoryOf(b))) + NUL;
      x := LedBy(s.Name(), owner + tag, SortValue(lower, b, s), b.id);
      assert s.Name() + NUL + (owner + tag) == CategoryPrefix(b.userID, CategoryOf(b), s);
    }
  }

  lemma LedBy(name: string, owner: string, value: string, id: string) returns (x: string)
    ensures KeyFor(name + NUL + owner + value, id) == name + NUL + x
  {
    x := KeyFor(owner + value, id);
    assert name + NUL + owner + value == name + NUL + (owner + value);
  }

  /** A recent_read key is never the key of another sort. */
  lemma ReadKeyApart(lower: Lowering, v: View, b: Book, t: Instant)
    requires v in {BySort, ByCategory}
    ensures forall i :: 1 <= i < 4 ==>
      && SortKeyIn(lower, v, b, 0) != SortKeyIn(lower, v, b, i)
      && SortKeyIn(lower, v, b.(lastReadAt := Some(t)), 0) != SortKeyIn(lower, v, b, i)
  {
    hide SortKeyIn;
    forall i | 1 <= i < 4 ensures SortKeyIn(lower, v, b, 0) != SortKeyIn(lower, v, b, i)
                            && SortKeyIn(lower, v, b.(lastReadAt := Some(t)), 0) != SortKeyIn(lower, v, b, i)
    {
      SortKeysDiffer(lower, v, b, 0, b, i);
      SortKeysDiffer(lower, v, b.(lastReadAt := Some(t)), 0, b, i);
    }
  }

  /** The content bucket looks only at owner and hash. */
  lemma ContentKeepsRecord(books: Books, content: Bucket, b: Book)
    requires b.id in books && ContentExact(books, content)
    requires b.userID == books[b.id].userID && b.contentHash == books[b.id].contentHash && books[b.id].id == b.id
    ensures ContentExact(books[b.id := b], content)
  {
    hide MembersPresent, CanonicalFor, NothingElse, HasNul;
    var after := books[b.id := b];
    MembersKeepRecord(books, content, b);
    forall u, h | !HasNul(u) && !HasNul(h) ensures CanonicalFor(after, content, u, h) {
      assert CanonicalFor(books, content, u, h);
      CanonicalKeepsRecord(books, content, b, u, h);
    }
    NothingElseKeepsRecord(books, content, b);
  }

  lemma MembersKeepRecord(books: Books, content: Bucket, b: Book)
    requires b.id in books && MembersPresent(books, content)
    requires b.userID == books[b.id].userID && b.contentHash == books[b.id].contentHash && books[b.id].id == b.id
    ensures MembersPresent(books[b.id := b], content)
  {
    assert MemberKey(b) == MemberKey(books[b.id]) && Hashed(b) == Hashed(books[b.id]);
    hide MemberKey, Hashed;
  }

  lemma CanonicalKeepsRecord(books: Books, content: Bucket, b: Book, u: string, h: string)
    requires b.id in books && CanonicalFor(books, content, u, h)
    requires b.userID == books[b.id].userID && b.contentHash == books[b.id].contentHash && books[b.id].id == b.id
    ensures CanonicalFor(books[b.id := b], content, u, h)
  {
    hide ContentKey;
    assert Copies(books[b.id := b], u, h) == Copies(books, u, h);
  }

  lemma NothingElseKeepsRecord(books: Books, content: Bucket, b: Book)
    requires b.id in books && NothingElse(books, content)
    requires b.userID == books[b.id].userID && b.contentHash == books[b.id].contentHash && books[b.id].id == b.id
    ensures NothingElse(books[b.id := b], content)
  {
    forall k ensures Accounts(b, k) == Accounts(books[b.id], k) {}
    hide Accounts;
    var after := books[b.id := b];
    forall k | k in content ensures exists id :: id in after && Accounts(after[id], k) {
      var id :| id in books && Accounts(books[id], k);
      assert Accounts(after[id], k);
    }
  }

  // ---- one category of one owner ----

  lemma PrefixParts(n: string, u: string, t: string, m: string, w: string, r: string, x: string, y: string)
    requires !HasNul(n) && !HasNul(u) && !HasNul(t) && !HasNul(m) && !HasNul(w) && !HasNul(r)
    requires n + NUL + u + NUL + t + NUL + x == m + NUL + w + NUL + r + NUL + y
    ensures n == m && u == w && t == r && x == y
  {
    assert n + NUL + u + NUL + t + NUL + x == n + NUL + (u + NUL + (t + NUL + x));
    assert m + NUL + w + NUL + r + NUL + y == m + NUL + (w + NUL + (r + NUL + y));
    BeforeJoined(n, u + NUL + (t + NUL + x), m, w + NUL + (r + NUL + y));
    BeforeJoined(u, t + NUL + x, w, r + NUL + y);
    BeforeJoined(t, x, r, y);
  }

  /** A category key lies under a category prefix exactly when sort, owner and
      category agree: base64 keeps distinct categories apart. */
  lemma UnderCategory(lower: Lowering, b: Book, s: BookSort, user: string, category: string, t: BookSort)
    requires IsBook(b) && !HasNul(user) && category == TrimSpace(category)
    ensures CategoryPrefix(user, category, t) <= CategoryIndexKey(lower, b, s) <==>
      s == t && b.userID == user && CategoryOf(b) == category
  {
    hide SortValue, CategoryOf, BookSort.Name;
    var p, k := CategoryPrefix(user, category, t), CategoryIndexKey(lower, b, s);
    var own := CategoryPrefix(b.userID, CategoryOf(b), s);
    var tail := SortValue(lower, b, s) + NUL + b.id;
    CategoryTrimmed(b);
    assert k == own + tail;
    if p <= k {
      var rest := k[|p|..];
      NoSeparators(b);
      SortNamesDiffer(s, t);
      SortNamesDiffer(t, s);
      Base64.CategoryTagNoNul(category);
      Base64.CategoryTagNoNul(CategoryOf(b));
      assert k == p + rest;
      PrefixParts(t.Name(), user, Base64.CategoryTag(category), s.Name(), b.userID, Base64.CategoryTag(CategoryOf(b)),
                  rest, tail);
      Base64.CategoryTagInjective(category, CategoryOf(b));
    }
  }

  lemma CategoryTrimmed(b: Book)
    ensures TrimSpace(CategoryOf(b)) == CategoryOf(b)
  {
    if b.category.Some? { TrimIdempotent(b.category.value); }
  }

  lemma UnderOwner(lower: Lowering, b: Book, s: BookSort, user: string, t: BookSort)
    requires IsBook(b) && !HasNul(user)
    ensures SortPrefix(user, t) <= SortIndexKey(lower, b, s) <==> s == t && b.userID == user
  {
    hide SortValue, BookSort.Name;
    var p, k := SortPrefix(user, t), SortIndexKey(lower, b, s);
    var tail := SortValue(lower, b, s) + NUL + b.id;
    assert k == SortPrefix(b.userID, s) + tail;
    if p <= k {
      var rest := k[|p|..];
      NoSeparators(b);
      SortNamesDiffer(s, t);
      SortNamesDiffer(t, s);
      assert k == t.Name() + NUL + (user + NUL + rest);
      assert k == s.Name() + NUL + (b.userID + NUL + tail);
      BeforeJoined(t.Name(), user + NUL + rest, s.Name(), b.userID + NUL + tail);
      BeforeJoined(user, rest, b.userID, tail);
    }
  }

  // ---- shelves: the rows a query scans ----

  /** bookQuerySortKey. */
  function RowKey(lower: Lowering, b: Book, s: BookSort, category: Option<string>): string {
    if category.Some? then CategoryIndexKey(lower, b, s) else SortIndexKey(lower, b, s)
  }

  /** The prefix bookQueryIndex scans under. */
  function QueryPrefix(user: string, s: BookSort, category: Option<string>): string {
    if category.Some? then CategoryPrefix(user, category.value, s) else SortPrefix(user, s)
  }

  function RowView(category: Option<string>): View {
    if category.Some? then ByCategory else BySort
  }

  /** The books on a shelf, by identifier. */
  function ShelfIds(books: Books, user: string, category: Option<string>): set<string> {
    set id | id in books && OnShelf(books[id], user, category)
  }

  predicate IsSelection(category: Option<string>) {
    category.Some? ==> TrimSpace(category.value) == category.value
  }

  lemma UnderShelf(lower: Lowering, b: Book, s: BookSort, user: string, category: Option<string>, t: BookSort)
    requires IsBook(b) && !HasNul(user) && IsSelection(category)
    ensures QueryPrefix(user, t, category) <= RowKey(lower, b, s, category) <==> s == t && OnShelf(b, user, category)
  {
    hide SortIndexKey, CategoryIndexKey, SortPrefix, CategoryPrefix, CategoryOf, IsOwner;
    if category.Some? {
      UnderCategory(lower, b, s, user, category.value, t);
    } else {
      UnderOwner(lower, b, s, user, t);
    }
  }

  /** A row under a shelf's prefix belongs to a book on that shelf. */
  lemma ShelfEntry(lower: Lowering, books: Books, bucket: Bucket, user: string, category: Option<string>, s: BookSort,
                   k: string)
    requires WellKeyed(books) && Derived(lower, RowView(category), books, bucket)
    requires !HasNul(user) && IsSelection(category)
    requires k in bucket && QueryPrefix(user, s, category) <= k
    ensures bucket[k] in ShelfIds(books, user, category) && k == RowKey(lower, books[bucket[k]], s, category)
  {
    hide SortIndexKey, CategoryIndexKey, QueryPrefix, CategoryOf, IsBook;
    var id :| id in books && k in Keys(lower, RowView(category), books[id]);
    var b := books[id];
    assert k == RowKey(lower, b, RecentRead, category) || k == RowKey(lower, b, RecentAdded, category)
        || k == RowKey(lower, b, Title, category) || k == RowKey(lower, b, Author, category);
    var t :| k == RowKey(lower, b, t, category);
    UnderShelf(lower, b, t, user, category, s);
  }

  /** Every book on a shelf has its row. */
  lemma ShelfEntryOf(lower: Lowering, books: Books, bucket: Bucket, user: string, category: Option<string>,
                     s: BookSort, id: string)
    requires WellKeyed(books) && Derived(lower, RowView(category), books, bucket)
    requires user != "" && !HasNul(user) && IsSelection(category) && id in ShelfIds(books, user, category)
    ensures var k := RowKey(lower, books[id], s, category);
            k in bucket && bucket[k] == id && QueryPrefix(user, s, category) <= k
  {
    hide SortIndexKey, CategoryIndexKey, QueryPrefix, CategoryOf;
    UnderShelf(lower, books[id], s, user, category, s);
    assert RowKey(lower, books[id], s, category) in Keys(lower, RowView(category), books[id]);
  }
}
