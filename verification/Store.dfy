/** The main database: the books bucket, reading progress, and the derived buckets
    every mutator patches (backend/storage/db.go, backend/storage/library_indexes.go).
    A bucket is a map field; one exported method is one bbolt transaction. */
module Store {
  import opened Wrappers
  import opened ByteOrder
  import opened Text
  import opened Clock
  import opened Library
  import opened Indexes

  datatype StoreError = NotFound | DuplicateBookContent | ProgressConflict

  /** Every bucket, as a transaction sees it when it begins. */
  datatype Buckets = Buckets(
    books: Books, userBooks: Bucket, sortIndex: Bucket, categoryIndex: Bucket, searchIndex: Bucket,
    gramIndex: Bucket, gramCounts: Counts, missingHash: Bucket, contentIndex: Bucket,
    summaries: map<string, Summary>, progress: ProgressBucket, progressTime: Bucket)

  /** The buckets derived from books are exact for the given books. */
  ghost predicate Indexed(lower: Lowering, books: Books, s: Buckets) {
    && WellKeyed(books)
    && Derived(lower, ByOwner, books, s.userBooks)
    && Derived(lower, BySort, books, s.sortIndex)
    && Derived(lower, ByCategory, books, s.categoryIndex)
    && Derived(lower, ByText, books, s.searchIndex)
    && Derived(lower, ByGram, books, s.gramIndex)
    && CountsExact(lower, books, s.gramCounts)
    && Derived(lower, MissingHash, books, s.missingHash)
    && ContentExact(books, s.contentIndex)
    && SummaryExact(books, s.summaries)
  }

  function Elements(ss: seq<string>): set<string> {
    set s | s in ss
  }

  /** The identifiers a batch names, once trimmed. */
  function Requested(ids: seq<string>): set<string> {
    set i | 0 <= i < |ids| && TrimSpace(ids[i]) != "" :: TrimSpace(ids[i])
  }

  predicate OwnedBy(books: Books, id: string, user: string) {
    id in books && books[id].userID == user
  }

  /** Some identifier of the batch is this one, perhaps with white space around it. */
  ghost predicate Names(ids: seq<string>, id: string) {
    id != "" && exists i :: 0 <= i < |ids| && IsAround(ids[i], id)
  }

  lemma RequestedIs(ids: seq<string>)
    ensures forall id :: id in Requested(ids) <==> Names(ids, id)
  {
    hide TrimSpace, IsAround;
    forall id ensures id in Requested(ids) <==> Names(ids, id) {
      forall i | 0 <= i < |ids| ensures TrimSpace(ids[i]) == id <==> IsAround(ids[i], id) {
        TrimSpaceIs(ids[i], id);
      }
    }
  }

  /** The library with the given books, and no others, in a new category. */
  function Recategorized(books: Books, ids: set<string>, category: Option<string>): Books {
    map id | id in books :: if id in ids then books[id].(category := category) else books[id]
  }

  /** The records named here take the given category, as it is stored, and nothing else of them or of
      any other record changes. */
  ghost predicate TakesCategory(was: Books, now: Books, named: set<string>, given: Option<string>) {
    && now.Keys == was.Keys
    && forall id <- was ::
         if id in named
         then now[id] == was[id].(category := now[id].category) && StoredAs(given, now[id].category)
         else now[id] == was[id]
  }

  lemma RecategorizedTakes(books: Books, ids: set<string>, given: Option<string>)
    ensures TakesCategory(books, Recategorized(books, ids, NormalizeCategory(given)), ids, given)
  {
    hide StoredAs, NormalizeCategory;
    NormalizeCategoryIs(given, NormalizeCategory(given));
  }

  /** An owned book whose category is the one named, white space around either aside. */
  ghost predicate InCategory(b: Book, name: string) {
    b.userID != "" && b.category.Some? && exists t :: t != "" && IsAround(name, t) && IsAround(b.category.value, t)
  }

  lemma RenamedBooks(books: Books, user: string, from: string)
    ensures forall id ::
      id in books && books[id].userID == user && InCategory(books[id], from) <==>
        user != "" && TrimSpace(from) != "" && id in OwnedIn(books, user, TrimSpace(from))
  {
    hide TrimSpace, IsAround, CategoryOf;
    TrimSpaceIs(from, TrimSpace(from));
    forall id | id in books && books[id].userID == user
      ensures InCategory(books[id], from) <==>
        user != "" && TrimSpace(from) != "" && CategoryOf(books[id]) == TrimSpace(from)
    {
      var b := books[id];
      CategoryOfIs(b, TrimSpace(from));
      if InCategory(b, from) {
        var t :| t != "" && IsAround(from, t) && IsAround(b.category.value, t);
        TrimSpaceIs(from, t);
      }
    }
  }

  lemma ElementsStep(ss: seq<string>, n: nat)
    requires n < |ss| && Distinct(ss)
    ensures Elements(ss[..n + 1]) == Elements(ss[..n]) + {ss[n]} && ss[n] !in Elements(ss[..n]) && ss[n] in Elements(ss)
  {
    assert ss[..n + 1] == ss[..n] + [ss[n]];
  }

  lemma RecategorizedNone(books: Books, category: Option<string>)
    ensures Recategorized(books, {}, category) == books
  {
  }

  lemma RecategorizedStep(books: Books, ids: set<string>, id: string, category: Option<string>)
    requires id !in ids
    ensures Recategorized(books, ids, category).Keys == books.Keys
    ensures id in books ==> Recategorized(books, ids, category)[id] == books[id]
    ensures id in books ==>
      Recategorized(books, ids + {id}, category) ==
      Recategorized(books, ids, category)[id := books[id].(category := category)]
  {
  }

  /** The list holds the record of each of these identifiers once. */
  predicate ListsOnce(list: seq<Book>, books: Books, ids: set<string>) {
    && (set b <- list :: b.id) == ids
    && (forall b <- list :: b.id in books && books[b.id] == b)
    && forall i, j :: 0 <= i < j < |list| ==> list[i].id != list[j].id
  }

  lemma ListsNone(books: Books)
    ensures ListsOnce([], books, {})
  {
  }

  lemma ListsOneMore(list: seq<Book>, books: Books, ids: set<string>, b: Book)
    requires ListsOnce(list, books, ids) && b.id !in ids && b.id in books && books[b.id] == b
    ensures ListsOnce(list + [b], books, ids + {b.id})
  {
    var next := list + [b];
    assert forall x :: x in next <==> x in list || x == b;
    assert (set x <- next :: x.id) == (set x <- list :: x.id) + {b.id};
    forall i | 0 <= i < |list|
      ensures next[i].id != b.id
    {
      assert next[i] in list;
    }
  }

  lemma ListsStill(list: seq<Book>, books: Books, ids: set<string>, b: Book)
    requires ListsOnce(list, books, ids) && b.id !in ids
    ensures ListsOnce(list, books[b.id := b], ids)
  {
  }

  /** Some record of the user has this content. */
  ghost predicate HasCopy(books: Books, user: string, hash: string) {
    user != "" && hash != "" && exists id <- books :: books[id].userID == user && books[id].contentHash == hash
  }

  /** What one hash batch does to the records, in order. */
  function Backfilled(books: Books, hashes: seq<Book>): Books {
    if hashes == [] then books else
      var before, h := Backfilled(books, hashes[..|hashes| - 1]), hashes[|hashes| - 1];
      if h.contentHash != "" && h.id in before && before[h.id].userID == h.userID
         && before[h.id].filename == h.filename && before[h.id].contentHash == ""
      then before[h.id := before[h.id].(contentHash := h.contentHash)]
      else before
  }

  /** The snapshot has a hash for a record that is still the one it was taken of: same owner, same
      file. */
  predicate StillFits(h: Book, id: string, b: Book) {
    h.contentHash != "" && h.id == id && h.userID == b.userID && h.filename == b.filename
  }

  predicate FirstFit(hashes: seq<Book>, id: string, b: Book, i: nat)
    requires i < |hashes|
  {
    StillFits(hashes[i], id, b) && forall j :: 0 <= j < i ==> !StillFits(hashes[j], id, b)
  }

  /** A record takes the hash of the first snapshot that fills it, if it has none, and nothing else of
      it changes. */
  predicate FilledFrom(hashes: seq<Book>, id: string, was: Book, now: Book) {
    if was.contentHash == "" && exists h <- hashes :: StillFits(h, id, was)
    then exists i :: 0 <= i < |hashes| && FirstFit(hashes, id, was, i)
                     && now == was.(contentHash := hashes[i].contentHash)
    else now == was
  }

  lemma {:induction false} BackfilledKeys(books: Books, hashes: seq<Book>)
    ensures Backfilled(books, hashes).Keys == books.Keys
  {
    if hashes != [] {
      BackfilledKeys(books, hashes[..|hashes| - 1]);
    }
  }

  /** What a batch does to a record, whatever the snapshots and however old they are. */
  lemma {:induction false} BackfilledRecord(books: Books, hashes: seq<Book>, id: string)
    requires id in books
    ensures id in Backfilled(books, hashes) && FilledFrom(hashes, id, books[id], Backfilled(books, hashes)[id])
    decreases |hashes|
  {
    BackfilledKeys(books, hashes);
    if hashes != [] {
      var front, h := hashes[..|hashes| - 1], hashes[|hashes| - 1];
      BackfilledRecord(books, front, id);
      var was, mid := books[id], Backfilled(books, front)[id];
      assert Backfilled(books, hashes)[id] ==
             if mid.contentHash == "" && StillFits(h, id, mid) then mid.(contentHash := h.contentHash) else mid;
      FilledOneMore(front, h, id, was, mid);
      assert front + [h] == hashes;
    }
  }

  lemma FilledOneMore(front: seq<Book>, h: Book, id: string, was: Book, mid: Book)
    requires FilledFrom(front, id, was, mid)
    ensures FilledFrom(front + [h], id, was,
                       if mid.contentHash == "" && StillFits(h, id, mid) then mid.(contentHash := h.contentHash)
                        else mid)
  {
    hide StillFits;
    var all := front + [h];
    assert all[|front|] == h;
    assert forall x :: x in all <==> x in front || x == h;
    if was.contentHash == "" {
      if x :| x in front && StillFits(x, id, was) {
        var i :| 0 <= i < |front| && FirstFit(front, id, was, i) && mid == was.(contentHash := front[i].contentHash);
        HasHash(front[i], id, was);
        assert FirstFit(all, id, was, i);
      } else if StillFits(h, id, was) {
        forall j | 0 <= j < |front|
          ensures !StillFits(front[j], id, was)
        {
          assert front[j] in front;
        }
        assert FirstFit(all, id, was, |front|);
      }
    }
  }

  lemma HasHash(h: Book, id: string, b: Book)
    requires StillFits(h, id, b)
    ensures h.contentHash != ""
  {
  }

  /** Who may save progress, and on top of what. */
  function SaveVerdict(books: Books, progress: ProgressBucket, p: Progress, user: string, expected: Option<Instant>)
    : Result<Progress, StoreError>
  {
    var key := OwnerKey(user, p.bookID);
    if !OwnedBy(books, p.bookID, user) then Failure(NotFound)
    else if expected.Some? && (key !in progress || progress[key].updatedAt != expected.value)
         then Failure(ProgressConflict)
    else Success(p.(userID := user))
  }

  function ProgressKeysOf(user: string, ids: set<string>): set<string> {
    set id | id in ids :: OwnerKey(user, id)
  }

  lemma DropsNone(books: Books, progress: ProgressBucket, user: string)
    ensures books - {} == books && progress - ProgressKeysOf(user, {}) == progress
  {
    assert ProgressKeysOf(user, {}) == {};
  }

  lemma DropsOneMore(books: Books, progress: ProgressBucket, user: string, ids: set<string>, id: string)
    ensures books - (ids + {id}) == (books - ids) - {id}
    ensures progress - ProgressKeysOf(user, ids + {id}) == (progress - ProgressKeysOf(user, ids)) - {OwnerKey(user, id)}
    ensures id !in ids ==> (id in books - ids <==> id in books)
    ensures id in books - ids ==> (books - ids)[id] == books[id]
  {
    hide OwnerKey;
    assert ProgressKeysOf(user, ids + {id}) == ProgressKeysOf(user, ids) + {OwnerKey(user, id)};
  }

  lemma RequestedElements(ids: seq<string>, unique: seq<string>)
    requires forall s :: s in unique <==> s != "" && exists i :: 0 <= i < |ids| && TrimSpace(ids[i]) == s
    ensures Requested(ids) == Elements(unique) && Elements(unique[..0]) == {}
  {
  }

  lemma OneMoreKey(bucket: Bucket, ks: set<string>, key: string)
    ensures bucket + (map k | k in ks + {key} :: "") == (bucket + map k | k in ks :: "")[key := ""]
  {
  }

  /** Every derived bucket holds exactly what the books and the progress records determine. */
  ghost predicate ExactBuckets(lower: Lowering, s: Buckets) {
    IsLowering(lower) && Indexed(lower, s.books, s)
    && ProgressKeyed(s.progress) && TimeExact(s.progress, s.progressTime)
  }

  class DB {
    const lower: Lowering
    var books: Books
    var userBooks: Bucket
    var sortIndex: Bucket
    var categoryIndex: Bucket
    var searchIndex: Bucket
    var gramIndex: Bucket
    var gramCounts: Counts
    var missingHash: Bucket
    var contentIndex: Bucket
    var summaries: map<string, Summary>
    var progress: ProgressBucket
    var progressTime: Bucket

    /** Every derived bucket holds exactly what the books and the progress records
        determine. */
    ghost predicate Exact()
      reads this
    {
      ExactBuckets(lower, Contents())
    }

    constructor (lower: Lowering)
      requires IsLowering(lower)
      ensures this.lower == lower && books == map[] && progress == map[] && Exact()
    {
      this.lower := lower;
      books, userBooks, sortIndex, categoryIndex := map[], map[], map[], map[];
      searchIndex, gramIndex, gramCounts, missingHash := map[], map[], map[], map[];
      contentIndex, summaries, progress, progressTime := map[], map[], map[], map[];
      new;
      forall p ensures Posters(lower, map[], p) == {} {}
      forall u, h ensures Copies(map[], u, h) == {} {}
      forall u, c ensures Owned(map[], u) == {} && OwnedIn(map[], u, c) == {} {}
    }

    function Contents(): Buckets
      reads this
    {
      Buckets(books, userBooks, sortIndex, categoryIndex, searchIndex, gramIndex, gramCounts,
              missingHash, contentIndex, summaries, progress, progressTime)
    }

    /** bbolt rolls a failed transaction back. */
    method Rollback(was: Buckets)
      modifies this
      ensures Contents() == was
    {
      RestoreShelves(was);
      RestoreLookups(was);
    }

    method RestoreShelves(was: Buckets)
      modifies this`books, this`userBooks, this`sortIndex,
               this`categoryIndex, this`searchIndex, this`gramIndex
      ensures books == was.books
      ensures userBooks == was.userBooks
      ensures sortIndex == was.sortIndex
      ensures categoryIndex == was.categoryIndex
      ensures searchIndex == was.searchIndex
      ensures gramIndex == was.gramIndex
    {
      books := was.books;
      userBooks := was.userBooks;
      sortIndex := was.sortIndex;
      categoryIndex := was.categoryIndex;
      searchIndex := was.searchIndex;
      gramIndex := was.gramIndex;
    }

    method RestoreLookups(was: Buckets)
      modifies this`gramCounts, this`missingHash, this`contentIndex,
               this`summaries, this`progress, this`progressTime
      ensures gramCounts == was.gramCounts
      ensures missingHash == was.missingHash
      ensures contentIndex == was.contentIndex
      ensures summaries == was.summaries
      ensures progress == was.progress
      ensures progressTime == was.progressTime
    {
      gramCounts := was.gramCounts;
      missingHash := was.missingHash;
      contentIndex := was.contentIndex;
      summaries := was.summaries;
      progress := was.progress;
      progressTime := was.progressTime;
    }

    // ---- index helpers: the entries of one book come or go ----

    method AddBookToUserIndex(id: string, user: string)
      modifies this`userBooks
      ensures userBooks == OwnerAdded(old(userBooks), id, user)
    {
      if user == "" || id == "" { return; }
      userBooks := userBooks[OwnerKey(user, id) := ""];
    }

    method RemoveBookFromUserIndex(id: string, user: string)
      modifies this`userBooks
      ensures userBooks == OwnerDropped(old(userBooks), id, user)
    {
      if user == "" || id == "" { return; }
      userBooks := userBooks - {OwnerKey(user, id)};
    }

    method AddBookToSortIndex(book: Book)
      modifies this`sortIndex, this`categoryIndex
      ensures sortIndex == old(sortIndex) + Entries(lower, BySort, book)
      ensures categoryIndex == old(categoryIndex) + Entries(lower, ByCategory, book)
    {
      hide SortIndexKey, CategoryIndexKey, FirstEntries;
      if book.userID == "" || book.id == "" { return; }
      hide Entries;
      AllEntries(lower, BySort, book);
      AllEntries(lower, ByCategory, book);
      var i := 0;
      while i < |SUPPORTED_SORTS|
        invariant 0 <= i <= |SUPPORTED_SORTS|
        invariant sortIndex == old(sortIndex) + FirstEntries(lower, BySort, book, i)
        invariant categoryIndex == old(categoryIndex) + FirstEntries(lower, ByCategory, book, i)
      {
        var s := SUPPORTED_SORTS[i];
        FirstEntriesStep(lower, BySort, book, i, old(sortIndex));
        FirstEntriesStep(lower, ByCategory, book, i, old(categoryIndex));
        sortIndex := sortIndex[SortIndexKey(lower, book, s) := book.id];
        categoryIndex := categoryIndex[CategoryIndexKey(lower, book, s) := book.id];
        i := i + 1;
      }
    }

    method RemoveBookFromSortIndex(book: Book)
      modifies this`sortIndex, this`categoryIndex
      ensures sortIndex == old(sortIndex) - Keys(lower, BySort, book)
      ensures categoryIndex == old(categoryIndex) - Keys(lower, ByCategory, book)
    {
      hide SortIndexKey, CategoryIndexKey, FirstKeys;
      if book.userID == "" || book.id == "" { return; }
      AllKeys(lower, BySort, book);
      AllKeys(lower, ByCategory, book);
      var i := 0;
      while i < |SUPPORTED_SORTS|
        invariant 0 <= i <= |SUPPORTED_SORTS|
        invariant sortIndex == old(sortIndex) - FirstKeys(lower, BySort, book, i)
        invariant categoryIndex == old(categoryIndex) - FirstKeys(lower, ByCategory, book, i)
      {
        var s := SUPPORTED_SORTS[i];
        FirstKeysStep(lower, BySort, book, i);
        FirstKeysStep(lower, ByCategory, book, i);
        sortIndex := sortIndex - {SortIndexKey(lower, book, s)};
        categoryIndex := categoryIndex - {CategoryIndexKey(lower, book, s)};
        i := i + 1;
      }
    }

    method AddBookToSearchIndex(book: Book)
      modifies this`searchIndex
      ensures searchIndex == old(searchIndex) + Entries(lower, ByText, book)
    {
      hide SearchKey, SearchText;
      if book.userID == "" || book.id == "" { return; }
      searchIndex := searchIndex[SearchKey(book.userID, book.id) := SearchText(lower, book)];
    }

    method RemoveBookFromSearchIndex(book: Book)
      modifies this`searchIndex
      ensures searchIndex == old(searchIndex) - Keys(lower, ByText, book)
    {
      hide SearchKey;
      if book.userID == "" || book.id == "" { return; }
      searchIndex := searchIndex - {SearchKey(book.userID, book.id)};
    }

    /** Moves one posting count; a count that reaches zero leaves the bucket. */
    method AdjustBookSearchGramCount(user: string, gram: string, delta: int)
      modifies this`gramCounts
      ensures gramCounts == AdjustedCount(old(gramCounts), GramPrefix(user, gram), delta)
    {
      var key := GramPrefix(user, gram);
      var count := CountAt(gramCounts, key) + delta;
      if count <= 0 {
        gramCounts := gramCounts - {key};
      } else {
        gramCounts := gramCounts[key := count];
      }
    }

    method AddBookToSearchGramIndex(book: Book)
      requires IsLowering(lower) && Keys(lower, ByGram, book) !! gramIndex.Keys
      modifies this`gramIndex, this`gramCounts
      ensures gramIndex == old(gramIndex) + Entries(lower, ByGram, book)
      ensures Raised(old(gramCounts), GramPrefixes(lower, book), gramCounts)
    {
      if book.userID == "" || book.id == "" { return; }
      hide SearchText, GramKeysOf, PrefixesOf, GramPrefixes, Raised;
      var grams := BookSearchGrams(lower, SearchText(lower, book));
      SearchTextNormal(lower, book);
      AllGrams(lower, book, grams, gramIndex);
      PostGrams(book.userID, book.id, grams);
    }

    /** The posting loop over the distinct grams of one book. */
    method PostGrams(user: string, id: string, grams: seq<string>)
      requires Distinct(grams) && GramKeysOf(user, id, grams, |grams|) !! gramIndex.Keys
      modifies this`gramIndex, this`gramCounts
      ensures gramIndex == old(gramIndex) + map k | k in GramKeysOf(user, id, grams, |grams|) :: ""
      ensures Raised(old(gramCounts), PrefixesOf(user, id, grams, |grams|, old(gramIndex), false), gramCounts)
    {
      hide GramKey, GramPrefix, GramKeysOf, PrefixesOf, Raised, Distinct, AdjustedCount;
      GramStart(user, id, grams, gramIndex);
      NothingMoved(gramCounts);
      var i := 0;
      while i < |grams|
        invariant 0 <= i <= |grams|
        invariant gramIndex == old(gramIndex) + map k | k in GramKeysOf(user, id, grams, i) :: ""
        invariant Raised(old(gramCounts), PrefixesOf(user, id, grams, i, old(gramIndex), false), gramCounts)
      {
        GramStep(user, id, grams, i, old(gramIndex), false);
        RaisedStep(old(gramCounts), PrefixesOf(user, id, grams, i, old(gramIndex), false), gramCounts,
                   GramPrefix(user, grams[i]));
        var key := GramKey(user, grams[i], id);
        OneMoreKey(old(gramIndex), GramKeysOf(user, id, grams, i), key);
        if key !in gramIndex {
          gramIndex := gramIndex[key := ""];
          AdjustBookSearchGramCount(user, grams[i], 1);
        }
        i := i + 1;
      }
    }

    method RemoveBookFromSearchGramIndex(book: Book)
      requires IsLowering(lower) && Keys(lower, ByGram, book) <= gramIndex.Keys
      modifies this`gramIndex, this`gramCounts
      ensures gramIndex == old(gramIndex) - Keys(lower, ByGram, book)
      ensures Lowered(old(gramCounts), GramPrefixes(lower, book), gramCounts)
    {
      if book.userID == "" || book.id == "" { return; }
      hide SearchText, GramKeysOf, PrefixesOf, GramPrefixes, Lowered;
      var grams := BookSearchGrams(lower, SearchText(lower, book));
      SearchTextNormal(lower, book);
      AllGrams(lower, book, grams, gramIndex);
      UnpostGrams(book.userID, book.id, grams);
    }

    method UnpostGrams(user: string, id: string, grams: seq<string>)
      requires Distinct(grams) && GramKeysOf(user, id, grams, |grams|) <= gramIndex.Keys
      modifies this`gramIndex, this`gramCounts
      ensures gramIndex == old(gramIndex) - GramKeysOf(user, id, grams, |grams|)
      ensures Lowered(old(gramCounts), PrefixesOf(user, id, grams, |grams|, old(gramIndex), true), gramCounts)
    {
      hide GramKey, GramPrefix, GramKeysOf, PrefixesOf, Lowered, Distinct, AdjustedCount;
      GramStart(user, id, grams, gramIndex);
      NothingMoved(gramCounts);
      var i := 0;
      while i < |grams|
        invariant 0 <= i <= |grams|
        invariant gramIndex == old(gramIndex) - GramKeysOf(user, id, grams, i)
        invariant Lowered(old(gramCounts), PrefixesOf(user, id, grams, i, old(gramIndex), true), gramCounts)
      {
        GramStep(user, id, grams, i, old(gramIndex), true);
        LoweredStep(old(gramCounts), PrefixesOf(user, id, grams, i, old(gramIndex), true), gramCounts,
                    GramPrefix(user, grams[i]));
        var key := GramKey(user, grams[i], id);
        if key in gramIndex {
          gramIndex := gramIndex - {key};
          AdjustBookSearchGramCount(user, grams[i], -1);
        }
        i := i + 1;
      }
    }

    method TrackMissingBookHash(book: Book)
      modifies this`missingHash
      ensures missingHash == if book.id == "" then old(missingHash)
                             else (old(missingHash) - {SearchKey(book.userID, book.id)})
                                    + Entries(lower, MissingHash, book)
    {
      hide SearchKey;
      if book.id == "" { return; }
      var key := SearchKey(book.userID, book.id);
      if book.contentHash != "" {
        missingHash := missingHash - {key};
      } else {
        missingHash := missingHash[key := book.id];
      }
    }

    method AddBookToContentIndex(book: Book)
      modifies this`missingHash, this`contentIndex
      ensures missingHash == if book.id == "" then old(missingHash)
                             else (old(missingHash) - {SearchKey(book.userID, book.id)})
                                    + Entries(lower, MissingHash, book)
      ensures IsBook(book) ==> contentIndex == ContentAdded(old(contentIndex), book)
    {
      hide MemberKey, ContentKey, SearchKey;
      TrackMissingBookHash(book);
      if book.userID == "" || book.id == "" || book.contentHash == "" { return; }
      var key := ContentKey(book.userID, book.contentHash);
      if IsBook(book) {
        NoSeparators(book);
        ContentKeysDiffer(book.userID, book.contentHash, book);
      }
      contentIndex := contentIndex[MemberKey(book) := book.id];
      if key !in contentIndex {
        contentIndex := contentIndex[key := book.id];
      }
    }

    method RemoveBookFromContentIndex(book: Book)
      modifies this`missingHash, this`contentIndex
      ensures missingHash == old(missingHash) - {SearchKey(book.userID, book.id)}
      ensures ContentDropped(old(contentIndex), book, contentIndex)
    {
      hide MemberKey, ContentKey, SearchKey;
      missingHash := missingHash - {SearchKey(book.userID, book.id)};
      if book.userID == "" || book.contentHash == "" { return; }
      var key := ContentKey(book.userID, book.contentHash);
      contentIndex := contentIndex - {MemberKey(book)};
      if key in contentIndex && contentIndex[key] != book.id { return; }
      var prefix := key + NUL;
      var visited := SeekFrom(contentIndex.Keys, prefix);
      if visited != [] && prefix <= visited[0] {
        assert visited[0] in contentIndex.Keys;
        contentIndex := contentIndex[key := contentIndex[visited[0]]];
      } else {
        NothingUnderPrefix(contentIndex.Keys, prefix);
        contentIndex := contentIndex - {key};
      }
    }

    method AdjustLibrarySummary(book: Book, delta: int)
      modifies this`summaries
      ensures summaries == if delta == 0 then old(summaries) else SummaryMoved(old(summaries), book, delta)
    {
      if book.userID == "" || delta == 0 { return; }
      var summary := LoadSummary(summaries, book.userID);
      var total := summary.total + delta;
      if total < 0 { total := 0; }
      var category := CategoryOf(book);
      if category == "" {
        var uncategorized := summary.uncategorized + delta;
        if uncategorized < 0 { uncategorized := 0; }
        summaries := summaries[book.userID := Summary(total, uncategorized, summary.categories)];
        return;
      }
      var categories := summary.categories[category := CategoryCount(summary, category) + delta];
      if categories[category] <= 0 {
        categories := categories - {category};
        assert categories == summary.categories - {category};
      }
      summaries := summaries[book.userID := Summary(total, summary.uncategorized, categories)];
    }

    /** The five removals every owner of an old record performs, in the order of SaveBook. */
    method RemoveFromIndexes(book: Book)
      requires IsLowering(lower) && Keys(lower, ByGram, book) <= gramIndex.Keys
      modifies this`sortIndex, this`categoryIndex, this`searchIndex, this`gramIndex, this`gramCounts,
               this`missingHash, this`contentIndex, this`summaries
      ensures sortIndex == old(sortIndex) - Keys(lower, BySort, book)
      ensures categoryIndex == old(categoryIndex) - Keys(lower, ByCategory, book)
      ensures searchIndex == old(searchIndex) - Keys(lower, ByText, book)
      ensures gramIndex == old(gramIndex) - Keys(lower, ByGram, book)
      ensures Lowered(old(gramCounts), GramPrefixes(lower, book), gramCounts)
      ensures missingHash == old(missingHash) - {SearchKey(book.userID, book.id)}
      ensures ContentDropped(old(contentIndex), book, contentIndex)
      ensures summaries == SummaryMoved(old(summaries), book, -1)
    {
      hide IsLowering, Keys, Lowered, GramPrefixes, SummaryMoved, ContentDropped, SearchKey;
      AdjustLibrarySummary(book, -1);
      RemoveBookFromContentIndex(book);
      RemoveBookFromSortIndex(book);
      RemoveBookFromSearchIndex(book);
      RemoveBookFromSearchGramIndex(book);
    }

    /** The five additions SaveBook and CreateBook share. */
    method AddToIndexes(book: Book)
      requires IsLowering(lower) && IsBook(book) && Keys(lower, ByGram, book) !! gramIndex.Keys
      modifies this`sortIndex, this`categoryIndex, this`searchIndex, this`gramIndex, this`gramCounts,
               this`missingHash, this`contentIndex, this`summaries
      ensures sortIndex == old(sortIndex) + Entries(lower, BySort, book)
      ensures categoryIndex == old(categoryIndex) + Entries(lower, ByCategory, book)
      ensures searchIndex == old(searchIndex) + Entries(lower, ByText, book)
      ensures gramIndex == old(gramIndex) + Entries(lower, ByGram, book)
      ensures Raised(old(gramCounts), GramPrefixes(lower, book), gramCounts)
      ensures missingHash == (old(missingHash) - {SearchKey(book.userID, book.id)}) + Entries(lower, MissingHash, book)
      ensures contentIndex == ContentAdded(old(contentIndex), book)
      ensures summaries == SummaryMoved(old(summaries), book, 1)
    {
      hide IsLowering, Keys, Entries, Raised, GramPrefixes, SummaryMoved, ContentAdded, SearchKey, IsOwner;
      AddBookToSortIndex(book);
      AddBookToSearchIndex(book);
      AddBookToSearchGramIndex(book);
      AddBookToContentIndex(book);
      AdjustLibrarySummary(book, 1);
    }

    // ---- transactions ----

    method SaveBook(book: Book)
      requires Exact() && IsBook(book)
      modifies this
      ensures Exact()
      ensures books == old(books)[book.id := book.(category := NormalizeCategory(book.category))]
      ensures StoredAs(book.category, books[book.id].category)
      ensures progress == old(progress)
    {
      hide IsLowering, Keys, Entries, Derived, CountsExact, ContentExact, SummaryExact, TimeExact, ProgressKeyed;
      hide Lowered, Raised, GramPrefixes, SummaryMoved, ContentDropped, ContentAdded, SearchKey;
      hide NormalizeCategory, IsOwner, OwnerAdded, OwnerKey, StoredAs;
      NormalizeCategoryIs(book.category, NormalizeCategory(book.category));
      ghost var was := books;
      var oldBook := if book.id in books then Some(books[book.id]) else None;
      var oldUserID := if oldBook.Some? then oldBook.value.userID else "";
      var b := book.(category := NormalizeCategory(book.category));
      DerivedPatch(lower, ByGram, was, gramIndex, b);
      OwnerPatched(lower, was, userBooks, b);
      MissingPatched(lower, was, missingHash, b);
      books := books[b.id := b];
      if oldUserID != b.userID {
        if oldUserID != "" {
          RemoveBookFromUserIndex(b.id, oldUserID);
        }
        AddBookToUserIndex(b.id, b.userID);
      }
      assert userBooks == Patched(lower, ByOwner, was, old(userBooks), b);
      if oldBook.Some? {
        RemoveFromIndexes(oldBook.value);
      }
      ghost var counts, content := gramCounts, contentIndex;
      AddToIndexes(b);
      PatchedAll(old(Contents()), Contents(), counts, content, b);
    }

    /** Patching every bucket for one record keeps them all exact. */
    lemma PatchedAll(was: Buckets, now: Buckets, counts: Counts, content: Bucket, b: Book)
      requires Indexed(lower, was.books, was) && IsBook(b)
      requires now.userBooks == Patched(lower, ByOwner, was.books, was.userBooks, b)
      requires now.sortIndex == Patched(lower, BySort, was.books, was.sortIndex, b)
      requires now.categoryIndex == Patched(lower, ByCategory, was.books, was.categoryIndex, b)
      requires now.searchIndex == Patched(lower, ByText, was.books, was.searchIndex, b)
      requires now.gramIndex == Patched(lower, ByGram, was.books, was.gramIndex, b)
      requires now.missingHash == Patched(lower, MissingHash, was.books, was.missingHash, b)
      requires if b.id in was.books then Lowered(was.gramCounts, GramPrefixes(lower, was.books[b.id]), counts)
               else counts == was.gramCounts
      requires Raised(counts, GramPrefixes(lower, b), now.gramCounts)
      requires if b.id in was.books then ContentDropped(was.contentIndex, was.books[b.id], content)
               else content == was.contentIndex
      requires now.contentIndex == ContentAdded(content, b)
      requires now.summaries ==
        SummaryMoved(if b.id in was.books then SummaryMoved(was.summaries, was.books[b.id], -1) else was.summaries,
                    b, 1)
      ensures Indexed(lower, was.books[b.id := b], now)
    {
      hide IsLowering, Keys, Entries, Derived, CountsExact, ContentExact, SummaryExact, IsBook;
      hide Patched, Lowered, Raised, GramPrefixes, SummaryMoved, ContentDropped, ContentAdded;
      DerivedPatch(lower, ByOwner, was.books, was.userBooks, b);
      DerivedPatch(lower, BySort, was.books, was.sortIndex, b);
      DerivedPatch(lower, ByCategory, was.books, was.categoryIndex, b);
      DerivedPatch(lower, ByText, was.books, was.searchIndex, b);
      DerivedPatch(lower, ByGram, was.books, was.gramIndex, b);
      DerivedPatch(lower, MissingHash, was.books, was.missingHash, b);
      CountsPatch(lower, was.books, was.gramCounts, counts, now.gramCounts, b);
      ContentPatch(was.books, was.contentIndex, content, b);
      SummaryPatch(was.books, was.summaries, b);
    }

    /** What is read of a user's summary: the number of books, and of those in a category. */
    lemma SummaryReads(user: string, category: string)
      requires Exact() && user != ""
      ensures var s := LoadSummary(summaries, user);
              && s.total == |set id | id in books && books[id].userID == user|
              && (if category == "" then s.uncategorized else CategoryCount(s, category)) ==
                 |set id | id in books && books[id].userID == user
                           && if books[id].category.None? then category == ""
                              else IsAround(books[id].category.value, category)|
    {
      hide IsLowering, Derived, CountsExact, ContentExact, ProgressKeyed, TimeExact, CategoryOf, IsAround;
      assert Summarizes(LoadSummary(summaries, user), books, user);
      assert Owned(books, user) == set id | id in books && books[id].userID == user;
      forall id | id in books
        ensures CategoryOf(books[id]) == category <==>
          if books[id].category.None? then category == "" else IsAround(books[id].category.value, category)
      {
        CategoryOfIs(books[id], category);
      }
      assert OwnedIn(books, user, category) ==
        set id | id in books && books[id].userID == user
                 && if books[id].category.None? then category == "" else IsAround(books[id].category.value, category);
    }

    /** A user has a copy exactly when a stored record of the user has the hash. */
    lemma CopiesAre(user: string, hash: string)
      requires Exact()
      ensures Copies(books, user, hash) != {} <==> HasCopy(books, user, hash)
    {
      hide IsLowering, Derived, CountsExact, ContentExact, SummaryExact, ProgressKeyed, TimeExact, IsOwner;
      if user != "" && hash != "" {
        if id :| id in books && books[id].userID == user && books[id].contentHash == hash {
          assert id in Copies(books, user, hash);
        }
      }
    }

    /** Whether the owner already has this content. */
    method DuplicateContent(b: Book) returns (duplicate: bool)
      requires Exact() && IsBook(b) && b.id !in books
      ensures duplicate <==> Copies(books, b.userID, b.contentHash) != {}
    {
      hide Derived, CountsExact, SummaryExact, TimeExact, ProgressKeyed, MembersPresent, NothingElse, ContentKey,
           IsOwner;
      NoSeparators(b);
      assert CanonicalFor(books, contentIndex, b.userID, b.contentHash);
      if b.contentHash == "" { return false; }
      var key := ContentKey(b.userID, b.contentHash);
      return key in contentIndex && contentIndex[key] != b.id;
    }

    /** Creating a book fails exactly when its owner already has the content. */
    method CreateBook(book: Book) returns (r: Result<Book, StoreError>)
      requires Exact() && IsBook(book) && book.id !in books
      modifies this
      ensures Exact()
      ensures r.Failure? <==> Copies(old(books), book.userID, book.contentHash) != {}
      ensures r.Failure? ==> r.error == DuplicateBookContent && Contents() == old(Contents())
      ensures r.Success? ==> r.value == book.(category := NormalizeCategory(book.category))
      ensures r.Success? ==> StoredAs(book.category, r.value.category)
      ensures r.Success? ==> books == old(books)[book.id := r.value] && progress == old(progress)
      ensures r.Failure? <==> HasCopy(old(books), book.userID, book.contentHash)
    {
      hide ExactBuckets, NormalizeCategory, IsOwner, StoredAs, Copies, HasCopy;
      NormalizeCategoryIs(book.category, NormalizeCategory(book.category));
      CopiesAre(book.userID, book.contentHash);
      var b := book.(category := NormalizeCategory(book.category));
      var duplicate := DuplicateContent(b);
      if duplicate { return Failure(DuplicateBookContent); }
      Insert(b);
      r := Success(b);
    }

    /** A new record and its entries. */
    method Insert(b: Book)
      requires Exact() && IsBook(b) && b.id !in books
      modifies this
      ensures Exact() && books == old(books)[b.id := b] && progress == old(progress)
    {
      hide IsLowering, Keys, Entries, Derived, CountsExact, SummaryExact, ContentExact, TimeExact, ProgressKeyed;
      hide Lowered, Raised, GramPrefixes, SummaryMoved, ContentDropped, ContentAdded, SearchKey, IsOwner, OwnerKey;
      DerivedPatch(lower, ByGram, books, gramIndex, b);
      OwnerPatched(lower, books, userBooks, b);
      MissingPatched(lower, books, missingHash, b);
      books := books[b.id := b];
      AddBookToUserIndex(b.id, b.userID);
      AddToIndexes(b);
      PatchedAll(old(Contents()), Contents(), old(gramCounts), old(contentIndex), b);
    }

    /** A user's copy of some content is found exactly when there is one. */
    method FindBookByContentHash(user: string, hash: string) returns (r: Option<Book>)
      requires Exact() && !HasNul(user) && !HasNul(hash)
      ensures r.Some? <==> Copies(books, user, hash) != {}
      ensures r.Some? <==> HasCopy(books, user, hash)
      ensures r.Some? ==>
        && r.value.id in books && books[r.value.id] == r.value
        && r.value.userID == user && r.value.contentHash == hash
    {
      hide Derived, CountsExact, SummaryExact, TimeExact, ProgressKeyed, MembersPresent, NothingElse, ContentKey,
           HasCopy;
      CopiesAre(user, hash);
      if hash == "" { return None; }
      assert CanonicalFor(books, contentIndex, user, hash);
      var key := ContentKey(user, hash);
      if key !in contentIndex { return None; }
      var id := contentIndex[key];
      if id !in books { return None; }
      var candidate := books[id];
      if candidate.userID == user && candidate.contentHash == hash {
        return Some(candidate);
      }
      return None;
    }

    method RemoveProgressFromTimeIndex(p: Progress)
      modifies this`progressTime
      ensures progressTime == if Timed(p) then old(progressTime) - {TimeKey(p)} else old(progressTime)
    {
      if p.userID == "" || p.bookID == "" { return; }
      progressTime := progressTime - {TimeKey(p)};
    }

    method AddProgressToTimeIndex(p: Progress)
      modifies this`progressTime
      ensures progressTime == if Timed(p) then old(progressTime)[TimeKey(p) := p.bookID] else old(progressTime)
    {
      if p.userID == "" || p.bookID == "" { return; }
      progressTime := progressTime[TimeKey(p) := p.bookID];
    }

    method DropProgress(key: string)
      requires ProgressKeyed(progress) && TimeExact(progress, progressTime)
      modifies this`progress, this`progressTime
      ensures progress == old(progress) - {key}
      ensures ProgressKeyed(progress) && TimeExact(progress, progressTime)
    {
      hide TimeKey, ProgressKeyed, TimeExact;
      if key in progress {
        TimeRemove(progress, progressTime, key);
        RemoveProgressFromTimeIndex(progress[key]);
      } else {
        assert progress - {key} == progress;
      }
      progress := progress - {key};
    }

    method DeleteProgress(bookID: string, user: string)
      requires Exact()
      modifies this
      ensures Exact() && books == old(books) && progress == old(progress) - {OwnerKey(user, bookID)}
    {
      hide Derived, CountsExact, ContentExact, SummaryExact, ProgressKeyed, TimeExact, OwnerKey;
      DropProgress(OwnerKey(user, bookID));
    }

    /** Removing one record from every bucket keeps them all exact. */
    lemma RemovedAll(was: Buckets, now: Buckets, id: string)
      requires Indexed(lower, was.books, was) && id in was.books
      requires now.userBooks == OwnerDropped(was.userBooks, id, was.books[id].userID)
      requires now.sortIndex == was.sortIndex - Keys(lower, BySort, was.books[id])
      requires now.categoryIndex == was.categoryIndex - Keys(lower, ByCategory, was.books[id])
      requires now.searchIndex == was.searchIndex - Keys(lower, ByText, was.books[id])
      requires now.gramIndex == was.gramIndex - Keys(lower, ByGram, was.books[id])
      requires now.missingHash == was.missingHash - {SearchKey(was.books[id].userID, id)}
      requires Lowered(was.gramCounts, GramPrefixes(lower, was.books[id]), now.gramCounts)
      requires ContentDropped(was.contentIndex, was.books[id], now.contentIndex)
      requires now.summaries == SummaryMoved(was.summaries, was.books[id], -1)
      ensures Indexed(lower, was.books - {id}, now)
    {
      hide Derived, CountsExact, ContentExact, SummaryExact, IsBook, SearchKey, OwnerKey;
      hide Lowered, GramPrefixes, SummaryMoved, ContentDropped;
      assert now.userBooks == was.userBooks - Keys(lower, ByOwner, was.books[id]);
      hide Keys;
      DerivedRemove(lower, ByOwner, was.books, was.userBooks, id);
      DerivedRemove(lower, BySort, was.books, was.sortIndex, id);
      DerivedRemove(lower, ByCategory, was.books, was.categoryIndex, id);
      DerivedRemove(lower, ByText, was.books, was.searchIndex, id);
      DerivedRemove(lower, ByGram, was.books, was.gramIndex, id);
      MissingRemoved(lower, was.books, was.missingHash, id);
      DerivedRemove(lower, MissingHash, was.books, was.missingHash, id);
      CountsRemove(lower, was.books, was.gramCounts, id, now.gramCounts);
      ContentDrop(was.books, was.contentIndex, id, now.contentIndex);
      SummaryDrop(was.books, was.summaries, id);
    }

    /** Deletes an owned book with its progress; anything else is not found. */
    method DeleteBookDataInTx(id: string, user: string) returns (r: Result<Book, StoreError>)
      requires Exact()
      modifies this
      ensures Exact()
      ensures r.Success? <==> id in old(books) && old(books)[id].userID == user
      ensures r.Failure? ==> r.error == NotFound && Contents() == old(Contents())
      ensures r.Success? ==> r.value == old(books)[id] && books == old(books) - {id}
      ensures r.Success? ==> progress == old(progress) - {OwnerKey(user, id)}
    {
      hide Derived, CountsExact, ContentExact, SummaryExact, ProgressKeyed, TimeExact, OwnerKey;
      hide IsLowering, Keys, Lowered, GramPrefixes, SummaryMoved, ContentDropped, SearchKey, IsOwner, OwnerDropped;
      if id !in books { return Failure(NotFound); }
      var book := books[id];
      if book.userID != user { return Failure(NotFound); }
      DerivedPatch(lower, ByGram, books, gramIndex, book);
      RemoveFromIndexes(book);
      books := books - {id};
      RemoveBookFromUserIndex(id, user);
      DropProgress(OwnerKey(user, id));
      RemovedAll(old(Contents()), Contents(), id);
      r := Success(book);
    }

    method DeleteBookData(id: string, user: string) returns (r: Result<Book, StoreError>)
      requires Exact()
      modifies this
      ensures Exact()
      ensures r.Success? <==> id in old(books) && old(books)[id].userID == user
      ensures r.Failure? ==> r.error == NotFound && Contents() == old(Contents())
      ensures r.Success? ==> r.value == old(books)[id] && books == old(books) - {id}
      ensures r.Success? ==> progress == old(progress) - {OwnerKey(user, id)}
    {
      r := DeleteBookDataInTx(id, user);
    }

    lemma StoredId(id: string)
      requires Exact()
      ensures id in books ==> books[id].id == id
    {
      hide IsLowering, Derived, CountsExact, ContentExact, SummaryExact, ProgressKeyed, TimeExact;
    }

    /** Deletes a batch of owned books, or, if one is unknown or foreign, nothing. */
    method DeleteBooksData(ids: seq<string>, user: string) returns (r: Result<seq<Book>, StoreError>)
      requires Exact()
      modifies this
      ensures Exact()
      ensures r.Success? <==> forall id <- Requested(ids) :: OwnedBy(old(books), id, user)
      ensures r.Failure? ==> r.error == NotFound && Contents() == old(Contents())
      ensures r.Success? ==> books == old(books) - Requested(ids)
      ensures r.Success? ==> progress == old(progress) - ProgressKeysOf(user, Requested(ids))
      ensures r.Success? ==> ListsOnce(r.value, old(books), Requested(ids))
      ensures forall id :: id in Requested(ids) <==> Names(ids, id)
      ensures r.Success? <==> forall id :: Names(ids, id) ==> id in old(books) && old(books)[id].userID == user
    {
      hide ExactBuckets, OwnerKey, ProgressKeysOf, Requested, Elements, ListsOnce, Names;
      RequestedIs(ids);
      var was := Contents();
      var deleted: seq<Book> := [];
      var unique := UniqueNonEmptyStrings(ids);
      RequestedElements(ids, unique);
      var i := 0;
      ListsNone(books);
      DropsNone(books, progress, user);
      while i < |unique|
        invariant 0 <= i <= |unique| && was == old(Contents())
        invariant Exact()
        invariant books == old(books) - Elements(unique[..i])
        invariant progress == old(progress) - ProgressKeysOf(user, Elements(unique[..i]))
        invariant forall id <- Elements(unique[..i]) :: OwnedBy(old(books), id, user)
        invariant ListsOnce(deleted, old(books), Elements(unique[..i]))
      {
        ElementsStep(unique, i);
        DropsOneMore(old(books), old(progress), user, Elements(unique[..i]), unique[i]);
        StoredId(unique[i]);
        var book := DeleteBookDataInTx(unique[i], user);
        if book.Failure? {
          Rollback(was);
          return Failure(NotFound);
        }
        ListsOneMore(deleted, old(books), Elements(unique[..i]), book.value);
        deleted := deleted + [book.value];
        i := i + 1;
      }
      assert unique[..i] == unique;
      r := Success(deleted);
    }

    // ---- batch and category edits ----

    method RemoveCategoryEntries(book: Book)
      requires IsLowering(lower) && Keys(lower, ByGram, book) <= gramIndex.Keys
      modifies this`sortIndex, this`categoryIndex, this`gramIndex, this`gramCounts, this`summaries
      ensures sortIndex == old(sortIndex) - Keys(lower, BySort, book)
      ensures categoryIndex == old(categoryIndex) - Keys(lower, ByCategory, book)
      ensures gramIndex == old(gramIndex) - Keys(lower, ByGram, book)
      ensures Lowered(old(gramCounts), GramPrefixes(lower, book), gramCounts)
      ensures summaries == SummaryMoved(old(summaries), book, -1)
    {
      hide IsLowering, Keys, Lowered, GramPrefixes, SummaryMoved;
      AdjustLibrarySummary(book, -1);
      RemoveBookFromSortIndex(book);
      RemoveBookFromSearchGramIndex(book);
    }

    method AddCategoryEntries(book: Book)
      requires IsLowering(lower) && Keys(lower, ByGram, book) !! gramIndex.Keys
      modifies this`sortIndex, this`categoryIndex, this`searchIndex, this`gramIndex, this`gramCounts, this`summaries
      ensures sortIndex == old(sortIndex) + Entries(lower, BySort, book)
      ensures categoryIndex == old(categoryIndex) + Entries(lower, ByCategory, book)
      ensures searchIndex == old(searchIndex) + Entries(lower, ByText, book)
      ensures gramIndex == old(gramIndex) + Entries(lower, ByGram, book)
      ensures Raised(old(gramCounts), GramPrefixes(lower, book), gramCounts)
      ensures summaries == SummaryMoved(old(summaries), book, 1)
    {
      hide IsLowering, Keys, Entries, Raised, GramPrefixes, SummaryMoved;
      AddBookToSearchIndex(book);
      AddBookToSortIndex(book);
      AddBookToSearchGramIndex(book);
      AdjustLibrarySummary(book, 1);
    }

    /** One record of a category batch: its summary, sort keys, search text and grams follow. */
    method UpdateBookCategory(id: string, category: Option<string>)
      requires Exact() && id in books
      modifies this
      ensures Exact() && progress == old(progress)
      ensures books == old(books)[id := old(books)[id].(category := category)]
    {
      hide IsLowering, Derived, CountsExact, ContentExact, SummaryExact, ProgressKeyed, TimeExact;
      hide Keys, Entries, Lowered, Raised, GramPrefixes, SummaryMoved, IsOwner;
      var oldBook := books[id];
      var b := oldBook.(category := category);
      DerivedPatch(lower, ByGram, books, gramIndex, b);
      TextEntryReplaced(lower, oldBook, category, searchIndex);
      RemoveCategoryEntries(oldBook);
      ghost var counts := gramCounts;
      books := books[id := b];
      AddCategoryEntries(b);
      RecategorizedAll(old(Contents()), Contents(), counts, b);
    }

    /** Changing only a category keeps every bucket exact. */
    lemma RecategorizedAll(was: Buckets, now: Buckets, counts: Counts, b: Book)
      requires Indexed(lower, was.books, was) && b.id in was.books
      requires b == was.books[b.id].(category := b.category)
      requires now.userBooks == was.userBooks && now.missingHash == was.missingHash
      requires now.contentIndex == was.contentIndex
      requires now.sortIndex == (was.sortIndex - Keys(lower, BySort, was.books[b.id])) + Entries(lower, BySort, b)
      requires now.categoryIndex ==
        (was.categoryIndex - Keys(lower, ByCategory, was.books[b.id])) + Entries(lower, ByCategory, b)
      requires now.searchIndex == (was.searchIndex - Keys(lower, ByText, was.books[b.id])) + Entries(lower, ByText, b)
      requires now.gramIndex == (was.gramIndex - Keys(lower, ByGram, was.books[b.id])) + Entries(lower, ByGram, b)
      requires Lowered(was.gramCounts, GramPrefixes(lower, was.books[b.id]), counts)
      requires Raised(counts, GramPrefixes(lower, b), now.gramCounts)
      requires now.summaries == SummaryMoved(SummaryMoved(was.summaries, was.books[b.id], -1), b, 1)
      ensures Indexed(lower, was.books[b.id := b], now)
    {
      hide IsLowering, Keys, Entries, Derived, CountsExact, ContentExact, SummaryExact, IsOwner;
      hide Lowered, Raised, GramPrefixes, SummaryMoved;
      var a := was.books[b.id];
      CategoryKeepsKeys(lower, ByOwner, a, b.category);
      CategoryKeepsKeys(lower, MissingHash, a, b.category);
      DerivedUnaffected(lower, ByOwner, was.books, was.userBooks, b);
      DerivedUnaffected(lower, MissingHash, was.books, was.missingHash, b);
      DerivedReplace(lower, BySort, was.books, was.sortIndex, b);
      DerivedReplace(lower, ByCategory, was.books, was.categoryIndex, b);
      DerivedReplace(lower, ByText, was.books, was.searchIndex, b);
      DerivedReplace(lower, ByGram, was.books, was.gramIndex, b);
      CountsPatch(lower, was.books, was.gramCounts, counts, now.gramCounts, b);
      ContentKeepsRecord(was.books, was.contentIndex, b);
      SummaryPatch(was.books, was.summaries, b);
    }

    method UpdateBooksCategoryInTx(ids: seq<string>, user: string, category: Option<string>, includeBooks: bool)
      returns (r: Result<seq<Book>, StoreError>)
      requires Exact()
      modifies this
      ensures Exact()
      ensures r.Success? <==> forall id <- Requested(ids) :: OwnedBy(old(books), id, user)
      ensures r.Failure? ==> r.error == NotFound
      ensures r.Success? ==> books == Recategorized(old(books), Requested(ids), NormalizeCategory(category))
      ensures r.Success? ==> if includeBooks then ListsOnce(r.value, books, Requested(ids)) else r.value == []
      ensures forall id :: id in Requested(ids) <==> Names(ids, id)
      ensures r.Success? <==> forall id :: Names(ids, id) ==> id in old(books) && old(books)[id].userID == user
      ensures r.Success? ==> TakesCategory(old(books), books, Requested(ids), category)
      ensures progress == old(progress)
    {
      hide ExactBuckets, NormalizeCategory, Recategorized, ListsOnce, Names, TakesCategory;
      RequestedIs(ids);
      RecategorizedTakes(old(books), Requested(ids), category);
      var updatedBooks: seq<Book> := [];
      var normalized := NormalizeCategory(category);
      var unique := UniqueNonEmptyStrings(ids);
      assert Requested(ids) == Elements(unique);
      var i := 0;
      RecategorizedNone(old(books), normalized);
      assert Elements(unique[..0]) == {};
      ListsNone(books);
      while i < |unique|
        invariant 0 <= i <= |unique|
        invariant Exact() && progress == old(progress)
        invariant books == Recategorized(old(books), Elements(unique[..i]), normalized)
        invariant forall id <- Elements(unique[..i]) :: OwnedBy(old(books), id, user)
        invariant if includeBooks then ListsOnce(updatedBooks, books, Elements(unique[..i])) else updatedBooks == []
      {
        hide Requested, Elements;
        var id := unique[i];
        ElementsStep(unique, i);
        RecategorizedStep(old(books), Elements(unique[..i]), id, normalized);
        if id !in books { return Failure(NotFound); }
        if books[id].userID != user { return Failure(NotFound); }
        StoredId(id);
        ghost var before := books;
        UpdateBookCategory(id, normalized);
        if includeBooks {
          ListsStill(updatedBooks, before, Elements(unique[..i]), books[id]);
          ListsOneMore(updatedBooks, books, Elements(unique[..i]), books[id]);
          updatedBooks := updatedBooks + [books[id]];
        }
        i := i + 1;
      }
      assert unique[..i] == unique;
      r := Success(updatedBooks);
    }

    /** All requested books change category, or, if one of them is unknown or foreign, none. */
    method UpdateBooksCategory(ids: seq<string>, user: string, category: Option<string>)
      returns (r: Result<seq<Book>, StoreError>)
      requires Exact()
      modifies this
      ensures Exact()
      ensures r.Success? <==> forall id <- Requested(ids) :: OwnedBy(old(books), id, user)
      ensures r.Failure? ==> r.error == NotFound && Contents() == old(Contents())
      ensures r.Success? ==> books == Recategorized(old(books), Requested(ids), NormalizeCategory(category))
      ensures r.Success? ==> ListsOnce(r.value, books, Requested(ids))
      ensures forall id :: id in Requested(ids) <==> Names(ids, id)
      ensures r.Success? <==> forall id :: Names(ids, id) ==> id in old(books) && old(books)[id].userID == user
      ensures r.Success? ==> TakesCategory(old(books), books, Requested(ids), category)
      ensures progress == old(progress)
    {
      hide NormalizeCategory, Indexed, TimeExact, ProgressKeyed, Requested, Names, TakesCategory, Recategorized;
      var was := Contents();
      r := UpdateBooksCategoryInTx(ids, user, category, true);
      if r.Failure? { Rollback(was); }
    }

    /** Renaming (or, with no target, dissolving) a category moves exactly its books and
        cannot fail: every identifier the index lists is owned. */
    method RenameBookCategory(user: string, from: string, to: Option<string>)
      returns (ids: seq<string>, r: Result<(), StoreError>)
      requires Exact() && IsOwner(user)
      modifies this
      ensures Exact() && r.Success? && progress == old(progress) && Distinct(ids)
      ensures Elements(ids) ==
        if user == "" || TrimSpace(from) == "" then {} else OwnedIn(old(books), user, TrimSpace(from))
      ensures books == Recategorized(old(books), Elements(ids), NormalizeCategory(to))
      ensures forall id ::
        id in ids <==> id in old(books) && old(books)[id].userID == user && InCategory(old(books)[id], from)
      ensures TakesCategory(old(books), books, Elements(ids), to)
    {
      hide IsLowering, NormalizeCategory, Derived, CountsExact, ContentExact, SummaryExact, ProgressKeyed, TimeExact;
      hide CategoryPrefix, CategoryIndexKey, OwnedIn, Recategorized, InCategory, TakesCategory;
      RenamedBooks(old(books), user, from);
      ids := [];
      var category := TrimSpace(from);
      RecategorizedNone(books, NormalizeCategory(to));
      RecategorizedTakes(books, {}, to);
      assert Elements(ids) == {};
      if user == "" || category == "" { return ids, Success(()); }
      TrimIdempotent(from);
      var prefix := CategoryPrefix(user, category, Title);
      var visited := SeekFrom(categoryIndex.Keys, prefix);
      var i := 0;
      while i < |visited| && prefix <= visited[i]
        invariant 0 <= i <= |visited|
        invariant |ids| == i && forall j :: 0 <= j < i ==>
          visited[j] in categoryIndex && ids[j] == categoryIndex[visited[j]] && prefix <= visited[j]
      {
        assert visited[i] in categoryIndex.Keys;
        ids := ids + [categoryIndex[visited[i]]];
        i := i + 1;
      }
      ListedExactly(user, category, visited, ids);
      RequestedOwned(ids, user);
      var updated := UpdateBooksCategoryInTx(ids, user, to, false);
      assert updated.Success?;
      r := Success(());
    }

    /** The scan of one category's title keys names each of its books once. */
    lemma ListedExactly(user: string, category: string, visited: seq<string>, ids: seq<string>)
      requires Exact() && IsOwner(user) && user != "" && category == TrimSpace(category)
      requires visited == SeekFrom(categoryIndex.Keys, CategoryPrefix(user, category, Title))
      requires |ids| <= |visited|
      requires |ids| < |visited| ==> !(CategoryPrefix(user, category, Title) <= visited[|ids|])
      requires forall j :: 0 <= j < |ids| ==>
        && visited[j] in categoryIndex && ids[j] == categoryIndex[visited[j]]
        && CategoryPrefix(user, category, Title) <= visited[j]
      ensures Elements(ids) == OwnedIn(books, user, category) && Distinct(ids)
    {
      hide IsLowering, Derived, CountsExact, ContentExact, SummaryExact, ProgressKeyed, TimeExact;
      hide CategoryPrefix, CategoryIndexKey, ShelfIds, OwnedIn;
      var shelf := Some(category);
      SameShelf(books, user, category);
      var prefix := CategoryPrefix(user, category, Title);
      forall j | 0 <= j < |ids|
        ensures ids[j] in OwnedIn(books, user, category) && ids[j] in books
        ensures visited[j] == CategoryIndexKey(lower, books[ids[j]], Title)
      {
        ShelfEntry(lower, books, categoryIndex, user, shelf, Title, visited[j]);
        OwnedInBooks(books, user, category);
      }
      forall id | id in OwnedIn(books, user, category) ensures id in ids {
        OwnedInBooks(books, user, category);
        ShelfEntryOf(lower, books, categoryIndex, user, shelf, Title, id);
        var k := CategoryIndexKey(lower, books[id], Title);
        PrefixNotAfter(prefix, k);
        if Before(k, prefix) { BeforeAsymmetric(k, prefix); }
        ScanCovers(categoryIndex.Keys, prefix, prefix, |ids|, k);
        var j :| 0 <= j < |ids| && visited[j] == k;
        assert ids[j] == id;
      }
      forall i, j | 0 <= i < j < |ids| ensures ids[i] != ids[j] {
        BeforeIrreflexive(visited[i]);
      }
    }

    lemma SameShelf(b: Books, user: string, category: string)
      ensures ShelfIds(b, user, Some(category)) == OwnedIn(b, user, category)
    {
      hide CategoryOf;
    }

    lemma OwnedInBooks(b: Books, user: string, category: string)
      ensures OwnedIn(b, user, category) <= b.Keys
    {
    }

    /** Identifiers carry no whitespace, so a batch of stored ones is taken as it is. */
    lemma RequestedOwned(ids: seq<string>, user: string)
      requires WellKeyed(books) && exists c :: Elements(ids) == OwnedIn(books, user, c)
      ensures Requested(ids) == Elements(ids) && forall id <- Requested(ids) :: OwnedBy(books, id, user)
    {
      forall i | 0 <= i < |ids| ensures TrimSpace(ids[i]) == ids[i] && ids[i] != "" && OwnedBy(books, ids[i], user) {
        assert ids[i] in Elements(ids);
        TrimOfSpaceless(ids[i]);
      }
    }

    // ---- hash backfill ----

    /** Commits a batch of computed hashes; records edited meanwhile are left alone. */
    method BackfillBookContentHashes(hashes: seq<Book>)
      requires Exact() && forall h <- hashes :: !HasNul(h.contentHash)
      modifies this
      ensures Exact() && progress == old(progress)
      ensures books == Backfilled(old(books), hashes) && books.Keys == old(books).Keys
      ensures forall id <- old(books) :: FilledFrom(hashes, id, old(books)[id], books[id])
    {
      hide IsLowering, Derived, CountsExact, ContentExact, SummaryExact, ProgressKeyed, TimeExact;
      var i := 0;
      assert hashes[..0] == [];
      while i < |hashes|
        invariant 0 <= i <= |hashes|
        invariant Exact() && progress == old(progress)
        invariant books == Backfilled(old(books), hashes[..i])
      {
        var snapshot := hashes[i];
        assert snapshot in hashes;
        assert hashes[..i + 1][..i] == hashes[..i];
        i := i + 1;
        if snapshot.contentHash == "" { continue; }
        if snapshot.id !in books { continue; }
        var book := books[snapshot.id];
        if book.userID != snapshot.userID || book.filename != snapshot.filename || book.contentHash != "" {
          continue;
        }
        FillHash(book.(contentHash := snapshot.contentHash));
      }
      assert hashes[..i] == hashes;
      BackfilledKeys(old(books), hashes);
      forall id | id in old(books)
        ensures FilledFrom(hashes, id, old(books)[id], books[id])
      {
        BackfilledRecord(old(books), hashes, id);
      }
    }

    method FillHash(b: Book)
      requires Exact() && b.id in books && books[b.id] == b.(contentHash := "") && IsBook(b)
      modifies this
      ensures Exact() && progress == old(progress) && books == old(books)[b.id := b]
    {
      hide IsLowering, Derived, CountsExact, ContentExact, SummaryExact, ProgressKeyed, TimeExact;
      hide Keys, Entries, ContentAdded, SearchKey, IsOwner;
      books := books[b.id := b];
      AddBookToContentIndex(b);
      FilledAll(old(Contents()), Contents(), b);
    }

    /** Filling in one hash keeps every bucket exact; only backlog and content move. */
    lemma FilledAll(was: Buckets, now: Buckets, b: Book)
      requires Indexed(lower, was.books, was) && b.id in was.books && IsBook(b)
      requires was.books[b.id] == b.(contentHash := "")
      requires now.userBooks == was.userBooks && now.sortIndex == was.sortIndex
      requires now.categoryIndex == was.categoryIndex && now.searchIndex == was.searchIndex
      requires now.gramIndex == was.gramIndex && now.gramCounts == was.gramCounts && now.summaries == was.summaries
      requires now.missingHash == (was.missingHash - {SearchKey(b.userID, b.id)}) + Entries(lower, MissingHash, b)
      requires now.contentIndex == ContentAdded(was.contentIndex, b)
      ensures Indexed(lower, was.books[b.id := b], now)
    {
      hide Derived, CountsExact, ContentExact, SummaryExact;
      hide Keys, Value, Entries, GramPrefixes, ContentAdded, SearchKey, CategoryOf, IsOwner;
      var a := was.books[b.id];
      MissingPatched(lower, was.books, was.missingHash, b);
      var key := SearchKey(b.userID, b.id);
      assert (was.missingHash - {key}) - {key} == was.missingHash - {key};
      DerivedPatch(lower, MissingHash, was.books, was.missingHash, b);
      ContentPatch(was.books, was.contentIndex, was.contentIndex, b);
      HashKeepsKeys(lower, ByOwner, a, b.contentHash);
      HashKeepsKeys(lower, BySort, a, b.contentHash);
      HashKeepsKeys(lower, ByCategory, a, b.contentHash);
      HashKeepsKeys(lower, ByText, a, b.contentHash);
      HashKeepsKeys(lower, ByGram, a, b.contentHash);
      assert b == a.(contentHash := b.contentHash);
      DerivedUnaffected(lower, ByOwner, was.books, was.userBooks, b);
      DerivedUnaffected(lower, BySort, was.books, was.sortIndex, b);
      DerivedUnaffected(lower, ByCategory, was.books, was.categoryIndex, b);
      DerivedUnaffected(lower, ByText, was.books, was.searchIndex, b);
      DerivedUnaffected(lower, ByGram, was.books, was.gramIndex, b);
      CountsUnaffected(lower, was.books, was.gramCounts, b);
      SameCategory(a, b);
      SummaryUnaffected(was.books, was.summaries, b);
    }

    lemma SameCategory(a: Book, b: Book)
      requires a.category == b.category
      ensures CategoryOf(a) == CategoryOf(b)
    {
    }

    // ---- reading progress ----

    method UpdateBookSortKey(oldBook: Book, book: Book, s: BookSort)
      modifies this`sortIndex, this`categoryIndex
      ensures var k, k' := SortIndexKey(lower, oldBook, s), SortIndexKey(lower, book, s);
              sortIndex == if k == k' then old(sortIndex) else (old(sortIndex) - {k})[k' := book.id]
      ensures var k, k' := CategoryIndexKey(lower, oldBook, s), CategoryIndexKey(lower, book, s);
              categoryIndex == if k == k' then old(categoryIndex) else (old(categoryIndex) - {k})[k' := book.id]
    {
      hide SortIndexKey, CategoryIndexKey;
      var oldKey, newKey := SortIndexKey(lower, oldBook, s), SortIndexKey(lower, book, s);
      if oldKey != newKey {
        sortIndex := sortIndex - {oldKey};
        sortIndex := sortIndex[newKey := book.id];
      }
      oldKey, newKey := CategoryIndexKey(lower, oldBook, s), CategoryIndexKey(lower, book, s);
      if oldKey != newKey {
        categoryIndex := categoryIndex - {oldKey};
        categoryIndex := categoryIndex[newKey := book.id];
      }
    }

    /** Saves progress on top of exactly the expected version. For a user with an empty
        identifier the sort buckets stay exact only if the time of the last reading does. */
    method SaveProgressIfCurrent(p: Progress, user: string, expected: Option<Instant>)
      returns (r: Result<Progress, StoreError>)
      requires Exact() && IsOwner(user)
      modifies this
      ensures r == SaveVerdict(old(books), old(progress), p, user, expected)
      ensures r == Failure(NotFound) <==> !(p.bookID in old(books) && old(books)[p.bookID].userID == user)
      ensures r == Failure(ProgressConflict) <==>
        && p.bookID in old(books) && old(books)[p.bookID].userID == user && expected.Some?
        && !(OwnerKey(user, p.bookID) in old(progress)
             && old(progress)[OwnerKey(user, p.bookID)].updatedAt == expected.value)
      ensures r.Success? ==>
        && r.value.bookID == p.bookID && r.value.userID == user && r.value.cfi == p.cfi
        && r.value.percentage == p.percentage && r.value.deviceID == p.deviceID && r.value.updatedAt == p.updatedAt
      ensures r.Failure? ==> r.error in {NotFound, ProgressConflict} && Contents() == old(Contents())
      ensures r.Success? ==>
        && books == old(books)[p.bookID := old(books)[p.bookID].(lastReadAt := Some(p.updatedAt))]
        && progress == old(progress)[OwnerKey(user, p.bookID) := r.value]
      ensures Exact() <==>
        user != "" || r.Failure? || Clamped(LastRead(old(books)[p.bookID])) == Clamped(p.updatedAt)
    {
      hide IsLowering, Derived, CountsExact, ContentExact, SummaryExact, ProgressKeyed, TimeExact, OwnerKey, IsOwner;
      var current := p.(userID := user);
      var key := OwnerKey(user, p.bookID);
      if p.bookID !in books { return Failure(NotFound); }
      var book := books[p.bookID];
      if book.userID != user { return Failure(NotFound); }
      var previous := if key in progress then Some(progress[key]) else None;
      if expected.Some? && (previous == None || previous.value.updatedAt != expected.value) {
        return Failure(ProgressConflict);
      }
      if book.lastReadAt == None || book.lastReadAt.value != p.updatedAt {
        MoveReadKey(book.(lastReadAt := Some(p.updatedAt)));
      } else {
        assert books == books[p.bookID := book.(lastReadAt := Some(p.updatedAt))];
      }
      StoreProgress(current);
      r := Success(current);
    }

    method MoveReadKey(b: Book)
      requires Exact() && b.id in books && b.lastReadAt.Some?
      requires books[b.id] == b.(lastReadAt := books[b.id].lastReadAt)
      modifies this
      ensures books == old(books)[b.id := b]
      ensures progress == old(progress) && progressTime == old(progressTime)
      ensures Indexed(lower, books, Contents()) <==>
        b.userID != "" || Clamped(LastRead(old(books)[b.id])) == Clamped(LastRead(b))
    {
      hide IsLowering, Derived, CountsExact, ContentExact, SummaryExact, ProgressKeyed, TimeExact;
      hide SortIndexKey, CategoryIndexKey, IsOwner;
      var oldBook := books[b.id];
      books := books[b.id := b];
      UpdateBookSortKey(oldBook, b, RecentRead);
      ReadAll(old(Contents()), Contents(), b);
    }

    /** Changing LastReadAt moves only the recent_read keys, and keeps every bucket exact exactly when the
        book has an owner or the keys stay where they are. */
    lemma ReadAll(was: Buckets, now: Buckets, b: Book)
      requires Indexed(lower, was.books, was) && b.id in was.books && b.lastReadAt.Some?
      requires was.books[b.id] == b.(lastReadAt := was.books[b.id].lastReadAt)
      requires now.userBooks == was.userBooks && now.searchIndex == was.searchIndex
      requires now.gramIndex == was.gramIndex && now.gramCounts == was.gramCounts && now.summaries == was.summaries
      requires now.missingHash == was.missingHash && now.contentIndex == was.contentIndex
      requires var k, k' := SortKeyIn(lower, BySort, was.books[b.id], 0), SortKeyIn(lower, BySort, b, 0);
               now.sortIndex == if k == k' then was.sortIndex else (was.sortIndex - {k})[k' := b.id]
      requires var k, k' := SortKeyIn(lower, ByCategory, was.books[b.id], 0), SortKeyIn(lower, ByCategory, b, 0);
               now.categoryIndex == if k == k' then was.categoryIndex else (was.categoryIndex - {k})[k' := b.id]
      ensures Indexed(lower, was.books[b.id := b], now) <==>
        b.userID != "" || Clamped(LastRead(was.books[b.id])) == Clamped(LastRead(b))
    {
      hide CountsExact, ContentExact, SummaryExact, Derived;
      hide Keys, Value, Entries, GramPrefixes, CategoryOf, IsOwner, SortKeyIn;
      var a, t := was.books[b.id], b.lastReadAt.value;
      assert b == a.(lastReadAt := Some(t));
      ReadKeepsExactIff(lower, BySort, was.books, was.sortIndex, a, t);
      ReadKeepsExactIff(lower, ByCategory, was.books, was.categoryIndex, a, t);
      ReadKeySame(lower, BySort, a, t);
      ReadKeySame(lower, ByCategory, a, t);
      ReadKeepsKeys(lower, ByOwner, a, t);
      ReadKeepsKeys(lower, ByText, a, t);
      ReadKeepsKeys(lower, ByGram, a, t);
      ReadKeepsKeys(lower, MissingHash, a, t);
      DerivedUnaffected(lower, ByOwner, was.books, was.userBooks, b);
      DerivedUnaffected(lower, ByText, was.books, was.searchIndex, b);
      DerivedUnaffected(lower, ByGram, was.books, was.gramIndex, b);
      DerivedUnaffected(lower, MissingHash, was.books, was.missingHash, b);
      CountsUnaffected(lower, was.books, was.gramCounts, b);
      ContentKeepsRecord(was.books, was.contentIndex, b);
      SameCategory(a, b);
      SummaryUnaffected(was.books, was.summaries, b);
    }

    method StoreProgress(p: Progress)
      requires ProgressKeyed(progress) && TimeExact(progress, progressTime) && IsOwner(p.userID) && IsId(p.bookID)
      modifies this`progress, this`progressTime
      ensures ProgressKeyed(progress) && TimeExact(progress, progressTime)
      ensures progress == old(progress)[OwnerKey(p.userID, p.bookID) := p]
    {
      hide TimeKey, ProgressKeyed, TimeExact, OwnerKey, IsOwner;
      var key := OwnerKey(p.userID, p.bookID);
      ghost var rest := progress - {key};
      ghost var index := progressTime;
      if key in progress {
        TimeRemove(progress, progressTime, key);
        SameRecordKey(progress, key, p);
        index := if Timed(progress[key]) then progressTime - {TimeKey(progress[key])} else progressTime;
        if progress[key].updatedAt != p.updatedAt {
          RemoveProgressFromTimeIndex(progress[key]);
        }
      } else {
        assert rest == progress;
      }
      TimeInsert(rest, index, p);
      assert forall k :: (progressTime - {k})[k := p.bookID] == progressTime[k := p.bookID];
      assert rest[key := p] == progress[key := p];
      progress := progress[key := p];
      AddProgressToTimeIndex(p);
    }

    lemma SameRecordKey(records: ProgressBucket, key: string, p: Progress)
      requires ProgressKeyed(records) && key in records && key == OwnerKey(p.userID, p.bookID)
      requires IsOwner(p.userID) && IsOwner(p.bookID)
      ensures records[key].userID == p.userID && records[key].bookID == p.bookID
      ensures records[key].updatedAt == p.updatedAt ==> TimeKey(records[key]) == TimeKey(p)
    {
      hide OwnerKey;
      OwnerKeysDiffer(records[key].userID, records[key].bookID, p.userID, p.bookID);
    }
  }

  /** The run on which an empty user identifier breaks the sort buckets: a book without an owner is
      stored, and read a nanosecond after it was created. */
  method NobodyReads(lower: Lowering) returns (db: DB)
    requires IsLowering(lower)
    ensures fresh(db) && db.lower == lower && db.books.Keys == {"b"} && db.books["b"].userID == ""
    ensures !db.Exact()
  {
    hide IsLowering, ExactBuckets;
    db := new DB(lower);
    db.SaveBook(Book("b", "", "", "", "", "", 0, "", "", "", "", None, 0, None));
    var r := db.SaveProgressIfCurrent(Progress("b", "", "", 0.0, "", 1), "", None);
    assert r.Success?;
  }
}
