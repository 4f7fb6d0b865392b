/** Migration 10: every derived bucket recomputed from the books alone
    (backend/storage/db.go, backend/storage/library_indexes.go). Rebuilding an exact
    store changes nothing, so the incremental mutators never drift. */
module Migration {
  import opened ByteOrder
  import opened Text
  import opened Library
  import opened Indexes
  import opened Store

  /** The books a ForEach over the bucket has met after n records. */
  ghost function FirstBooks(books: Books, ids: seq<string>, n: nat): Books
    requires n <= |ids| && forall id <- ids :: id in books
  {
    map id | id in ids[..n] :: books[id]
  }

  lemma FirstBooksStep(books: Books, ids: seq<string>, n: nat)
    requires n < |ids| && ids == Ascending(books.Keys) && WellKeyed(books)
    ensures ids[n] in books && books[ids[n]].id == ids[n] && IsBook(books[ids[n]])
    ensures ids[n] !in FirstBooks(books, ids, n) && WellKeyed(FirstBooks(books, ids, n))
    ensures FirstBooks(books, ids, n + 1) == FirstBooks(books, ids, n)[ids[n] := books[ids[n]]]
  {
    hide Before, IsBook, Ascending;
    assert ids[n] in ids;
    forall i | 0 <= i < n ensures ids[i] != ids[n] { BeforeIrreflexive(ids[n]); }
    assert ids[..n + 1] == ids[..n] + [ids[n]];
  }

  lemma AllBooks(books: Books)
    ensures var ids := Ascending(books.Keys);
            FirstBooks(books, ids, |ids|) == books && FirstBooks(books, ids, 0) == map[]
  {
    var ids := Ascending(books.Keys);
    assert ids[..|ids|] == ids;
  }

  lemma NothingDerived(lower: Lowering, v: View)
    ensures Derived(lower, v, map[], map[])
  {
  }

  /** One more record of a rebuild. */
  lemma RebuildOne(lower: Lowering, v: View, books: Books, bucket: Bucket, b: Book)
    requires WellKeyed(books) && IsBook(b) && b.id !in books && Derived(lower, v, books, bucket)
    ensures Derived(lower, v, books[b.id := b], bucket + Entries(lower, v, b))
    ensures bucket.Keys !! Keys(lower, v, b)
  {
    hide Derived, Keys, Entries, IsBook;
    KeysFree(lower, v, books, bucket, b);
    DerivedInsert(lower, v, books, bucket, b);
  }

  method RebuildBookSortIndex(db: DB)
    requires WellKeyed(db.books)
    modifies db`sortIndex, db`categoryIndex
    ensures Derived(db.lower, BySort, db.books, db.sortIndex)
    ensures Derived(db.lower, ByCategory, db.books, db.categoryIndex)
  {
    hide Derived, Keys, Entries, WellKeyed, FirstBooks, IsBook, Sorted;
    db.sortIndex, db.categoryIndex := map[], map[];
    NothingDerived(db.lower, BySort);
    NothingDerived(db.lower, ByCategory);
    AllBooks(db.books);
    var ids := Ascending(db.books.Keys);
    var n := 0;
    while n < |ids|
      invariant 0 <= n <= |ids|
      invariant Derived(db.lower, BySort, FirstBooks(db.books, ids, n), db.sortIndex)
      invariant Derived(db.lower, ByCategory, FirstBooks(db.books, ids, n), db.categoryIndex)
    {
      FirstBooksStep(db.books, ids, n);
      RebuildOne(db.lower, BySort, FirstBooks(db.books, ids, n), db.sortIndex, db.books[ids[n]]);
      RebuildOne(db.lower, ByCategory, FirstBooks(db.books, ids, n), db.categoryIndex, db.books[ids[n]]);
      db.AddBookToSortIndex(db.books[ids[n]]);
      n := n + 1;
    }
  }

  method RebuildBookSearchIndex(db: DB)
    requires WellKeyed(db.books)
    modifies db`searchIndex
    ensures Derived(db.lower, ByText, db.books, db.searchIndex)
  {
    hide Derived, Keys, Entries, WellKeyed, FirstBooks, IsBook, Sorted;
    db.searchIndex := map[];
    NothingDerived(db.lower, ByText);
    AllBooks(db.books);
    var ids := Ascending(db.books.Keys);
    var n := 0;
    while n < |ids|
      invariant 0 <= n <= |ids|
      invariant Derived(db.lower, ByText, FirstBooks(db.books, ids, n), db.searchIndex)
    {
      FirstBooksStep(db.books, ids, n);
      RebuildOne(db.lower, ByText, FirstBooks(db.books, ids, n), db.searchIndex, db.books[ids[n]]);
      db.AddBookToSearchIndex(db.books[ids[n]]);
      n := n + 1;
    }
  }

  method RebuildBookSearchGramIndex(db: DB)
    requires WellKeyed(db.books) && IsLowering(db.lower)
    modifies db`gramIndex, db`gramCounts
    ensures Derived(db.lower, ByGram, db.books, db.gramIndex)
    ensures CountsExact(db.lower, db.books, db.gramCounts)
  {
    hide Derived, Keys, Entries, WellKeyed, FirstBooks, IsBook, Sorted, IsLowering, CountsExact, Raised, GramPrefixes;
    db.gramIndex, db.gramCounts := map[], map[];
    NothingDerived(db.lower, ByGram);
    NothingCounted(db.lower);
    AllBooks(db.books);
    var ids := Ascending(db.books.Keys);
    var n := 0;
    while n < |ids|
      invariant 0 <= n <= |ids|
      invariant Derived(db.lower, ByGram, FirstBooks(db.books, ids, n), db.gramIndex)
      invariant CountsExact(db.lower, FirstBooks(db.books, ids, n), db.gramCounts)
    {
      FirstBooksStep(db.books, ids, n);
      ghost var counts := db.gramCounts;
      RebuildOne(db.lower, ByGram, FirstBooks(db.books, ids, n), db.gramIndex, db.books[ids[n]]);
      db.AddBookToSearchGramIndex(db.books[ids[n]]);
      CountsInsert(db.lower, FirstBooks(db.books, ids, n), counts, db.books[ids[n]], db.gramCounts);
      n := n + 1;
    }
  }

  lemma NothingCounted(lower: Lowering)
    ensures CountsExact(lower, map[], map[])
  {
    hide GramPrefixes;
    forall p ensures Posters(lower, map[], p) == {} {}
  }

  method RebuildLibrarySummaryIndex(db: DB)
    requires WellKeyed(db.books)
    modifies db`summaries
    ensures SummaryExact(db.books, db.summaries)
    ensures forall u :: u in db.summaries ==> Owned(db.books, u) != {}
  {
    hide WellKeyed, FirstBooks, IsBook, Sorted, SummaryExact, SummaryMoved, Owned;
    db.summaries := map[];
    NothingSummarized();
    AllBooks(db.books);
    var ids := Ascending(db.books.Keys);
    var n := 0;
    while n < |ids|
      invariant 0 <= n <= |ids|
      invariant SummaryExact(FirstBooks(db.books, ids, n), db.summaries)
      invariant forall u :: u in db.summaries ==> Owned(db.books, u) != {}
    {
      FirstBooksStep(db.books, ids, n);
      OnlyOwnerMoves(db.books, ids[n], db.summaries);
      SummaryAdd(FirstBooks(db.books, ids, n), db.summaries, db.books[ids[n]]);
      db.AdjustLibrarySummary(db.books[ids[n]], 1);
      n := n + 1;
    }
  }

  lemma OnlyOwnerMoves(books: Books, id: string, bucket: map<string, Summary>)
    requires id in books
    ensures Owned(books, books[id].userID) != {}
    ensures forall u :: u in SummaryMoved(bucket, books[id], 1) ==> u in bucket || u == books[id].userID
  {
    assert id in Owned(books, books[id].userID);
  }

  lemma NothingSummarized()
    ensures SummaryExact(map[], map[])
  {
    forall u, c ensures Owned(map[], u) == {} && OwnedIn(map[], u, c) == {} {}
  }

  method RebuildBookContentIndex(db: DB)
    requires WellKeyed(db.books)
    modifies db`contentIndex, db`missingHash
    ensures ContentExact(db.books, db.contentIndex)
  {
    hide WellKeyed, FirstBooks, IsBook, Sorted, ContentExact, Hashed, Entries, SearchKey, MemberKey, ContentKey;
    db.contentIndex := map[];
    NothingHashed();
    AllBooks(db.books);
    var ids := Ascending(db.books.Keys);
    var n := 0;
    while n < |ids|
      invariant 0 <= n <= |ids|
      invariant ContentExact(FirstBooks(db.books, ids, n), db.contentIndex)
    {
      FirstBooksStep(db.books, ids, n);
      ContentInsert(FirstBooks(db.books, ids, n), db.contentIndex, db.books[ids[n]]);
      NoHashNoEntry(db.contentIndex, db.books[ids[n]]);
      if db.books[ids[n]].contentHash != "" {
        db.AddBookToContentIndex(db.books[ids[n]]);
      }
      n := n + 1;
    }
  }

  lemma NothingHashed()
    ensures ContentExact(map[], map[])
  {
    hide MemberKey, ContentKey;
    forall u, h ensures Copies(map[], u, h) == {} {}
  }

  lemma NoHashNoEntry(content: Bucket, b: Book)
    ensures b.contentHash == "" ==> ContentAdded(content, b) == content
  {
  }

  method RebuildMissingBookHashIndex(db: DB)
    requires WellKeyed(db.books)
    modifies db`missingHash
    ensures Derived(db.lower, MissingHash, db.books, db.missingHash)
  {
    hide Derived, Keys, Entries, WellKeyed, FirstBooks, IsBook, Sorted, SearchKey, Patched;
    db.missingHash := map[];
    NothingDerived(db.lower, MissingHash);
    AllBooks(db.books);
    var ids := Ascending(db.books.Keys);
    var n := 0;
    while n < |ids|
      invariant 0 <= n <= |ids|
      invariant Derived(db.lower, MissingHash, FirstBooks(db.books, ids, n), db.missingHash)
    {
      FirstBooksStep(db.books, ids, n);
      TrackedOne(db.lower, FirstBooks(db.books, ids, n), db.missingHash, db.books[ids[n]]);
      db.TrackMissingBookHash(db.books[ids[n]]);
      n := n + 1;
    }
  }

  lemma TrackedOne(lower: Lowering, books: Books, bucket: Bucket, b: Book)
    requires WellKeyed(books) && IsBook(b) && b.id !in books && Derived(lower, MissingHash, books, bucket)
    ensures b.id != ""
    ensures Derived(lower, MissingHash, books[b.id := b],
                    (bucket - {SearchKey(b.userID, b.id)}) + Entries(lower, MissingHash, b))
  {
    hide Derived, Keys, Entries, SearchKey, IsOwner;
    MissingPatched(lower, books, bucket, b);
    DerivedPatch(lower, MissingHash, books, bucket, b);
  }

  /** Recomputes every derived bucket. On an exact store each bucket comes out as it
      was; the content bucket, whose canonical copy is a choice, comes out exact, and
      the summaries read the same, though entries that count nothing disappear. */
  method RebuildLibraryQueryIndexes(db: DB)
    requires WellKeyed(db.books) && IsLowering(db.lower) && Derived(db.lower, ByOwner, db.books, db.userBooks)
    modifies db`sortIndex, db`categoryIndex, db`searchIndex, db`gramIndex, db`gramCounts,
             db`summaries, db`contentIndex, db`missingHash
    ensures Indexed(db.lower, db.books, db.Contents())
    ensures old(db.Exact()) ==>
      && db.Exact()
      && db.sortIndex == old(db.sortIndex) && db.categoryIndex == old(db.categoryIndex)
      && db.searchIndex == old(db.searchIndex) && db.gramIndex == old(db.gramIndex)
      && db.gramCounts == old(db.gramCounts) && db.missingHash == old(db.missingHash)
      && (forall u :: LoadSummary(db.summaries, u) == LoadSummary(old(db.summaries), u))
      && (db.summaries == old(db.summaries) <==> forall u <- old(db.summaries) :: old(db.summaries)[u] != NO_BOOKS)
  {
    hide Derived, WellKeyed, IsLowering, CountsExact, ContentExact, SummaryExact, TimeExact, ProgressKeyed;
    hide Owned, LoadSummary, Indexed, ExactBuckets, DB.Exact;
    ExactMeans(db);
    ghost var was := db.Contents();
    RebuildBookSortIndex(db);
    RebuildBookSearchIndex(db);
    RebuildBookSearchGramIndex(db);
    RebuildLibrarySummaryIndex(db);
    RebuildBookContentIndex(db);
    RebuildMissingBookHashIndex(db);
    ghost var now := db.Contents();
    AllRebuilt(db.lower, db.books, now);
    ExactMeans(db);
    ExactIs(db.lower, was);
    ExactIs(db.lower, now);
    if Indexed(db.lower, was.books, was) {
      SameIndexes(db.lower, db.books, was, now);
    }
  }

  lemma AllRebuilt(lower: Lowering, books: Books, s: Buckets)
    requires WellKeyed(books)
    requires Derived(lower, ByOwner, books, s.userBooks)
    requires Derived(lower, BySort, books, s.sortIndex) && Derived(lower, ByCategory, books, s.categoryIndex)
    requires Derived(lower, ByText, books, s.searchIndex) && Derived(lower, ByGram, books, s.gramIndex)
    requires CountsExact(lower, books, s.gramCounts) && Derived(lower, MissingHash, books, s.missingHash)
    requires ContentExact(books, s.contentIndex) && SummaryExact(books, s.summaries)
    ensures Indexed(lower, books, s)
  {
    hide WellKeyed, Derived, CountsExact, ContentExact, SummaryExact;
  }

  lemma ExactMeans(db: DB)
    ensures db.Exact() <==> ExactBuckets(db.lower, db.Contents())
  {
    hide ExactBuckets;
  }

  lemma ExactIs(lower: Lowering, s: Buckets)
    ensures ExactBuckets(lower, s) <==>
      IsLowering(lower) && Indexed(lower, s.books, s)
      && ProgressKeyed(s.progress) && TimeExact(s.progress, s.progressTime)
  {
  }

  /** The books determine every derived bucket. */
  lemma SameIndexes(lower: Lowering, books: Books, was: Buckets, now: Buckets)
    requires Indexed(lower, books, was) && Indexed(lower, books, now)
    ensures was.userBooks == now.userBooks && was.sortIndex == now.sortIndex && was.categoryIndex == now.categoryIndex
    ensures was.searchIndex == now.searchIndex && was.gramIndex == now.gramIndex && was.gramCounts == now.gramCounts
    ensures was.missingHash == now.missingHash
    ensures forall u :: LoadSummary(was.summaries, u) == LoadSummary(now.summaries, u)
    ensures (forall u :: u in now.summaries ==> Owned(books, u) != {}) ==>
      (now.summaries == was.summaries <==> forall u <- was.summaries :: was.summaries[u] != NO_BOOKS)
  {
    hide Owned, LoadSummary;
    hide Derived, WellKeyed, CountsExact, ContentExact, SummaryExact;
    DerivedUnique(lower, ByOwner, books, was.userBooks, now.userBooks);
    DerivedUnique(lower, BySort, books, was.sortIndex, now.sortIndex);
    DerivedUnique(lower, ByCategory, books, was.categoryIndex, now.categoryIndex);
    DerivedUnique(lower, ByText, books, was.searchIndex, now.searchIndex);
    DerivedUnique(lower, ByGram, books, was.gramIndex, now.gramIndex);
    DerivedUnique(lower, MissingHash, books, was.missingHash, now.missingHash);
    CountsUnique(lower, books, was.gramCounts, now.gramCounts);
    forall u ensures LoadSummary(was.summaries, u) == LoadSummary(now.summaries, u) {
      NoUserNoSummary(was.summaries);
      NoUserNoSummary(now.summaries);
      if u != "" { SummaryUnique(books, was.summaries, now.summaries, u); }
    }
    if forall u :: u in now.summaries ==> Owned(books, u) != {} {
      SummaryBucketsEqual(books, was.summaries, now.summaries);
    }
  }

  lemma NoUserNoSummary(bucket: map<string, Summary>)
    ensures LoadSummary(bucket, "") == NO_BOOKS
  {
  }
}
