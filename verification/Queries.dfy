/** Paged listing and search over the indexes (backend/storage/book_queries.go), proved
    equal to the brute-force pages of module Shelves. */
module Queries {
  import opened Wrappers
  import opened ByteOrder
  import opened Text
  import opened Library
  import opened Indexes
  import opened Shelves
  import opened Store

  /** selectedBookCategory. */
  function SelectedBookCategory(filter: Option<string>): (c: Option<string>)
    ensures c.Some? <==> filter.Some?
    ensures c.Some? ==> TrimSpace(c.value) == c.value
  {
    match filter
    case None => None
    case Some(name) => TrimIdempotent(name); Some(TrimSpace(name))
  }

  lemma SelectedIs(filter: Option<string>, c: Option<string>)
    ensures SelectedBookCategory(filter) == c <==>
      if filter.None? then c.None? else c.Some? && IsAround(filter.value, c.value)
  {
    hide TrimSpace, IsAround;
    if filter.Some? {
      TrimIdempotent(filter.value);
      if c.Some? { TrimSpaceIs(filter.value, c.value); }
    }
  }

  /** The filter lets a book through: there is none, or it names the book's category, or it is white
      space and the book has none. */
  ghost predicate Passes(b: Book, filter: Option<string>) {
    filter.Some? ==>
      exists c :: IsAround(filter.value, c) && if b.category.None? then c == "" else IsAround(b.category.value, c)
  }

  lemma OnShelfIs(b: Book, user: string, filter: Option<string>)
    ensures OnShelf(b, user, SelectedBookCategory(filter)) <==> b.userID == user && Passes(b, filter)
  {
    hide IsAround, CategoryOf, SelectedBookCategory;
    var category := SelectedBookCategory(filter);
    SelectedIs(filter, category);
    if filter.Some? {
      CategoryOfIs(b, category.value);
      if b.userID == user && Passes(b, filter) {
        var c :| IsAround(filter.value, c) && if b.category.None? then c == "" else IsAround(b.category.value, c);
        SelectedIs(filter, Some(c));
      }
    }
  }

  /** The shelf that listing and search are about holds exactly the user's books that pass the filter. */
  lemma ShelfMembers(lower: Lowering, books: Books, user: string, filter: Option<string>, s: BookSort, b: Book)
    requires WellKeyed(books)
    ensures b in Shelf(lower, books, user, SelectedBookCategory(filter), s) <==>
      b.id in books && books[b.id] == b && b.userID == user && Passes(b, filter)
  {
    hide IsBook, Precedes, Passes, SelectedBookCategory, OnShelf;
    var ids := ShelfIds(books, user, SelectedBookCategory(filter));
    ArrangedCorrect(lower, books, s, ids);
    OnShelfIs(b, user, filter);
    assert b.id in books ==> (b.id in ids <==> OnShelf(books[b.id], user, SelectedBookCategory(filter)));
  }

  /** Whoever searches for one of a book's fields in full finds the book: it is on the walk along the
      pages of the search, whatever the order and the limit. */
  lemma FieldIsFound(db: DB, user: string, filter: Option<string>, sortKey: string, limit: nat, b: Book, field: string)
    requires db.Exact() && limit > 0 && b.id in db.books && db.books[b.id] == b && b.userID == user && Passes(b, filter)
    requires field in {b.title, b.author, b.filename, b.format, CategoryText(b)}
    ensures WellKeyed(db.books)
    ensures var shelf := Shelf(db.lower, db.books, user, SelectedBookCategory(filter), NormalizeBookSort(sortKey));
            DistinctIds(shelf) && b in Walk(db.lower, shelf, Normalize(db.lower, field), "", limit)
  {
    hide IsLowering, Derived, CountsExact, ContentExact, SummaryExact, ProgressKeyed, TimeExact, IsBook, Shelf;
    hide SelectedBookCategory, NormalizeBookSort, Passes, Normalize, SearchText, Contains, Walk, Matching;
    var category, s := SelectedBookCategory(filter), NormalizeBookSort(sortKey);
    WalkFromStart(db.lower, db.books, user, category, s, Normalize(db.lower, field), limit);
    ShelfMembers(db.lower, db.books, user, filter, s, b);
    FieldIsSearched(db.lower, b, field);
    assert Matches(db.lower, b, Normalize(db.lower, field));
  }

  function RowIndex(db: DB, category: Option<string>): Bucket
    reads db
  {
    if category.Some? then db.categoryIndex else db.sortIndex
  }

  /** bookQueryStart: the row of the cursor book, or the start of the shelf. */
  function QueryStart(db: DB, user: string, cursor: string, s: BookSort, category: Option<string>): string
    reads db
  {
    if cursor != "" && cursor in db.books && OnShelf(db.books[cursor], user, category)
    then RowKey(db.lower, db.books[cursor], s, category)
    else QueryPrefix(user, s, category)
  }

  /** The rows of a shelf, in shelf order. */
  ghost function Rows(lower: Lowering, shelf: seq<Book>, s: BookSort, category: Option<string>): seq<string> {
    seq(|shelf|, i requires 0 <= i < |shelf| => RowKey(lower, shelf[i], s, category))
  }

  ghost predicate ShelfOf(db: DB, user: string, category: Option<string>, s: BookSort, shelf: seq<Book>)
    reads db
  {
    && WellKeyed(db.books)
    && IsArrangement(db.lower, db.books, s, ShelfIds(db.books, user, category), shelf)
    && DistinctIds(shelf)
  }

  lemma RowOrder(lower: Lowering, a: Book, b: Book, s: BookSort, user: string, category: Option<string>)
    requires OnShelf(a, user, category) && OnShelf(b, user, category)
    ensures Before(RowKey(lower, a, s, category), RowKey(lower, b, s, category)) <==> Precedes(lower, s, a, b)
  {
    hide Precedes, SortIndexKey, CategoryIndexKey, CategoryOf;
    if category.Some? { CategoryKeyOrder(lower, a, b, s); } else { SortKeyOrder(lower, a, b, s); }
  }

  /** The rows are sorted, and they are all the index holds under the prefix. */
  lemma RowsCorrect(db: DB, user: string, category: Option<string>, s: BookSort, shelf: seq<Book>)
    requires db.Exact() && user != "" && !HasNul(user) && IsSelection(category)
    requires ShelfOf(db, user, category, s, shelf)
    ensures var rows := Rows(db.lower, shelf, s, category);
            && Sorted(rows)
            && (forall k :: k in rows <==> k in RowIndex(db, category) && QueryPrefix(user, s, category) <= k)
            && (forall i :: 0 <= i < |shelf| ==>
                  rows[i] in RowIndex(db, category) && RowIndex(db, category)[rows[i]] == shelf[i].id)
  {
    hide Derived, Rows, DB.Exact, ExactBuckets, IsSelection, HasNul, IsArrangement, WellKeyed, Sorted;
    RowIndexExact(db, category);
    RowsOf(db.lower, db.books, RowIndex(db, category), user, category, s, shelf);
  }

  lemma RowIndexExact(db: DB, category: Option<string>)
    requires db.Exact()
    ensures Derived(db.lower, RowView(category), db.books, RowIndex(db, category))
  {
    hide IsLowering, Derived, CountsExact, ContentExact, SummaryExact, ProgressKeyed, TimeExact;
  }

  lemma RowsOf(lower: Lowering, books: Books, index: Bucket, user: string, category: Option<string>, s: BookSort,
               shelf: seq<Book>)
    requires Derived(lower, RowView(category), books, index) && WellKeyed(books)
    requires user != "" && !HasNul(user) && IsSelection(category)
    requires IsArrangement(lower, books, s, ShelfIds(books, user, category), shelf)
    ensures var rows := Rows(lower, shelf, s, category);
            && Sorted(rows)
            && (forall k :: k in rows <==> k in index && QueryPrefix(user, s, category) <= k)
            && (forall i :: 0 <= i < |shelf| ==> rows[i] in index && index[rows[i]] == shelf[i].id)
  {
    hide Derived, Precedes, RowKey, QueryPrefix, IsBook, OnShelf, IsSelection, HasNul;
    var rows := Rows(lower, shelf, s, category);
    forall i, j | 0 <= i < j < |rows| ensures Before(rows[i], rows[j]) {
      RowOrder(lower, shelf[i], shelf[j], s, user, category);
    }
    forall i | 0 <= i < |shelf|
      ensures rows[i] in index && index[rows[i]] == shelf[i].id
      ensures QueryPrefix(user, s, category) <= rows[i]
    {
      ShelfEntryOf(lower, books, index, user, category, s, shelf[i].id);
    }
    forall k | k in index && QueryPrefix(user, s, category) <= k ensures k in rows {
      ShelfEntry(lower, books, index, user, category, s, k);
      var id := index[k];
      var i :| 0 <= i < |shelf| && shelf[i] == books[id];
      assert rows[i] == k;
    }
  }

  /** Where a scan starts among the rows: at the cursor's own row, or at the first. */
  function Offset(shelf: seq<Book>, cursor: string): nat {
    if Position(shelf, cursor) > 0 then Position(shelf, cursor) - 1 else 0
  }

  lemma OffsetBelow(shelf: seq<Book>, cursor: string)
    ensures Offset(shelf, cursor) <= Position(shelf, cursor) <= |shelf|
  {
  }

  lemma StartAt(db: DB, user: string, category: Option<string>, s: BookSort, shelf: seq<Book>, cursor: string)
    requires db.Exact() && user != "" && !HasNul(user) && IsSelection(category)
    requires ShelfOf(db, user, category, s, shelf)
    ensures var start, p := QueryStart(db, user, cursor, s, category), Position(shelf, cursor);
            && QueryPrefix(user, s, category) <= start
            && (if p > 0 then start == RowKey(db.lower, shelf[p - 1], s, category)
                else start == QueryPrefix(user, s, category))
            && (p > 0 <==> |start| > |QueryPrefix(user, s, category)|)
  {
    hide IsLowering, Derived, CountsExact, ContentExact, SummaryExact, ProgressKeyed, TimeExact;
    hide Precedes, RowKey, QueryPrefix, OnShelf;
    var p := Position(shelf, cursor);
    if p > 0 { OnThisShelf(db, user, category, s, shelf, p - 1); }
    if cursor != "" && cursor in db.books && OnShelf(db.books[cursor], user, category) {
      assert db.books[cursor] in shelf;
      var i :| 0 <= i < |shelf| && shelf[i] == db.books[cursor];
      PositionOf(shelf, i);
      UnderShelf(db.lower, db.books[cursor], s, user, category, s);
      RowLonger(db.lower, db.books[cursor], s, user, category);
    }
  }

  lemma RowLonger(lower: Lowering, b: Book, s: BookSort, user: string, category: Option<string>)
    requires b.id != "" && OnShelf(b, user, category) && IsSelection(category)
    ensures |RowKey(lower, b, s, category)| > |QueryPrefix(user, s, category)|
  {
    hide SortValue, BookSort.Name, CategoryOf;
    if category.Some? {
      CategoryTrimmed(b);
      assert RowKey(lower, b, s, category) ==
        QueryPrefix(user, s, category) + (SortValue(lower, b, s) + NUL + b.id);
    } else {
      assert RowKey(lower, b, s, category) ==
        QueryPrefix(user, s, category) + (SortValue(lower, b, s) + NUL + b.id);
    }
  }

  /** The cursor visits the rows from the offset on, then leaves the prefix. */
  lemma VisitsRows(db: DB, user: string, category: Option<string>, s: BookSort, shelf: seq<Book>, cursor: string)
    requires db.Exact() && user != "" && !HasNul(user) && IsSelection(category)
    requires ShelfOf(db, user, category, s, shelf)
    ensures var start := QueryStart(db, user, cursor, s, category);
            var visited := SeekFrom(RowIndex(db, category).Keys, start);
            var rows, o := Rows(db.lower, shelf, s, category), Offset(shelf, cursor);
            && o <= |rows| && |visited| >= |rows| - o && visited[..|rows| - o] == rows[o..]
            && (|visited| > |rows| - o ==> !(QueryPrefix(user, s, category) <= visited[|rows| - o]))
  {
    hide IsLowering, Indexed, ProgressKeyed, TimeExact, WellKeyed, IsArrangement;
    hide RowKey, QueryPrefix, OnShelf;
    var keys := RowIndex(db, category).Keys;
    var prefix, start := QueryPrefix(user, s, category), QueryStart(db, user, cursor, s, category);
    var visited := SeekFrom(keys, start);
    var rows, o := Rows(db.lower, shelf, s, category), Offset(shelf, cursor);
    RowsCorrect(db, user, category, s, shelf);
    StartAt(db, user, category, s, shelf, cursor);
    SegmentOf(keys, prefix, start, rows, o);
  }

  /** A sorted list that is all of a prefix is met as one run by a scan that starts
      at its o-th element, or at the prefix itself. */
  lemma SegmentOf(keys: set<string>, prefix: string, start: string, rows: seq<string>, o: nat)
    requires Sorted(rows) && (forall k :: k in rows <==> k in keys && prefix <= k)
    requires (o == 0 && start == prefix) || (o < |rows| && start == rows[o])
    ensures var visited := SeekFrom(keys, start);
            && o <= |rows| && |visited| >= |rows| - o && visited[..|rows| - o] == rows[o..]
            && (|visited| > |rows| - o ==> !(prefix <= visited[|rows| - o]))
  {
    hide Before, Sorted;
    var visited := SeekFrom(keys, start);
    var n := PrefixRun(visited, prefix);
    forall k ensures k in visited[..n] <==> k in rows[o..] {
      if k in visited[..n] { VisitedIsRow(keys, prefix, start, rows, o, n, k); }
      RowIsVisited(keys, prefix, start, rows, o, n, k);
    }
    SortedEnds(visited, n);
    SortedEnds(rows, o);
    SortedUnique(visited[..n], rows[o..]);
  }

  lemma SortedEnds(s: seq<string>, n: nat)
    requires Sorted(s) && n <= |s|
    ensures Sorted(s[..n]) && Sorted(s[n..])
  {
    hide Before;
  }

  lemma VisitedIsRow(keys: set<string>, prefix: string, start: string, rows: seq<string>, o: nat, n: nat, k: string)
    requires Sorted(rows) && (forall r :: r in rows <==> r in keys && prefix <= r)
    requires (o == 0 && start == prefix) || (o < |rows| && start == rows[o])
    requires n == PrefixRun(SeekFrom(keys, start), prefix) && k in SeekFrom(keys, start)[..n]
    ensures k in rows[o..]
  {
    hide Before;
    var visited := SeekFrom(keys, start);
    var i :| 0 <= i < n && visited[i] == k;
    assert k in visited && k in rows;
    var j :| 0 <= j < |rows| && rows[j] == k;
    assert j >= o;
    assert rows[o..][j - o] == k;
  }

  lemma RowIsVisited(keys: set<string>, prefix: string, start: string, rows: seq<string>, o: nat, n: nat, k: string)
    requires Sorted(rows) && (forall r :: r in rows <==> r in keys && prefix <= r)
    requires (o == 0 && start == prefix) || (o < |rows| && start == rows[o])
    requires n == PrefixRun(SeekFrom(keys, start), prefix)
    ensures k in rows[o..] ==> k in SeekFrom(keys, start)[..n]
  {
    hide Before;
    if k in rows[o..] {
      var j :| o <= j < |rows| && rows[j] == k;
      assert k in rows;
      assert prefix <= start by { if start != prefix { assert rows[o] in rows; } }
      PrefixNotAfter(prefix, k);
      BeforeIrreflexive(k);
      if Before(k, start) { BeforeAsymmetric(k, start); }
      ScanCovers(keys, start, prefix, n, k);
    }
  }

  function Max(a: int, b: int): int {
    if a < b then b else a
  }

  /** The result and one lookahead record. */
  function FirstMatches(matches: seq<Book>, limit: nat): seq<Book> {
    if |matches| <= limit then matches else matches[..limit + 1]
  }

  /** The stored search text of an owned book. */
  lemma StoredText(db: DB, user: string, b: Book)
    requires db.Exact() && b.id in db.books && db.books[b.id] == b && b.userID == user && user != "" && b.id != ""
    ensures SearchKey(user, b.id) in db.searchIndex && db.searchIndex[SearchKey(user, b.id)] == SearchText(db.lower, b)
  {
    hide IsLowering, Derived, CountsExact, ContentExact, SummaryExact, ProgressKeyed, TimeExact;
    hide SearchText, SearchKey, IsBook;
    DerivedEntry(db.lower, ByText, db.books, db.searchIndex, b.id, SearchKey(user, b.id));
  }

  /** What a scan holds after the first n rows of the shelf: the matches from `from` on. */
  ghost predicate Collected(lower: Lowering, shelf: seq<Book>, from: nat, n: nat, query: string, books: seq<Book>)
    requires from <= |shelf| && n <= |shelf|
  {
    books == Matching(lower, shelf[from..Max(from, n)], query)
  }

  lemma NothingCollected(lower: Lowering, shelf: seq<Book>, from: nat, n: nat, query: string)
    requires n <= from <= |shelf|
    ensures Collected(lower, shelf, from, n, query, [])
  {
  }

  lemma OneMoreRow(lower: Lowering, shelf: seq<Book>, from: nat, n: nat, query: string, books: seq<Book>)
    requires from <= |shelf| && n < |shelf| && Collected(lower, shelf, from, n, query, books)
    ensures Collected(lower, shelf, from, n + 1, query,
                      if from <= n && Matches(lower, shelf[n], query) then books + [shelf[n]] else books)
  {
    hide Matches;
    if from <= n {
      assert shelf[from..n + 1] == shelf[from..n] + [shelf[n]];
      MatchingConcat(lower, shelf[from..n], [shelf[n]], query);
      assert [shelf[n]][1..] == [];
    }
  }

  /** A scan may stop once it holds one match past the page, or at the end of the shelf. */
  lemma Enough(lower: Lowering, shelf: seq<Book>, cursor: string, n: nat, query: string, books: seq<Book>, limit: nat)
    requires Position(shelf, cursor) <= n <= |shelf|
    requires Collected(lower, shelf, Position(shelf, cursor), n, query, books)
    requires |books| == limit + 1 || (n == |shelf| && |books| <= limit)
    ensures books == FirstMatches(Matching(lower, After(shelf, cursor), query), limit)
  {
    hide Matches;
    var from := Position(shelf, cursor);
    assert shelf[from..] == shelf[from..n] + shelf[n..];
    MatchingConcat(lower, shelf[from..n], shelf[n..], query);
  }

  /** Checks the compact search text before reading the record itself. */
  method MatchingRecord(db: DB, user: string, id: string, query: string,
                        category: Option<string>) returns (r: Option<Book>)
    requires db.Exact() && user != "" && id != "" && id in db.books && db.books[id].userID == user
    ensures r == if Matches(db.lower, db.books[id], query) && OnShelf(db.books[id], user, category)
                 then Some(db.books[id]) else None
  {
    hide IsLowering, Derived, CountsExact, ContentExact, SummaryExact, ProgressKeyed, TimeExact;
    hide SearchText, SearchKey, Contains, IsBook, CategoryOf;
    StoredText(db, user, db.books[id]);
    var key := SearchKey(user, id);
    var text := if key in db.searchIndex then db.searchIndex[key] else "";
    if query != "" && !Contains(text, query) { return None; }
    if id !in db.books { return None; }
    var book := db.books[id];
    if !OnShelf(book, user, category) { return None; }
    return Some(book);
  }

  /** The i-th key a scan visits is the row of the next shelf book, as long as it
      carries the prefix, and the scan leaves the prefix only when the shelf ends. */
  lemma RowAt(db: DB, user: string, category: Option<string>, s: BookSort, shelf: seq<Book>, cursor: string, i: nat)
    requires db.Exact() && user != "" && !HasNul(user) && IsSelection(category)
    requires ShelfOf(db, user, category, s, shelf) && i <= |shelf| - Offset(shelf, cursor)
    ensures var visited := SeekFrom(RowIndex(db, category).Keys, QueryStart(db, user, cursor, s, category));
            var n := Offset(shelf, cursor) + i;
            && ((i < |visited| && QueryPrefix(user, s, category) <= visited[i]) <==> n < |shelf|)
            && (n < |shelf| ==>
                  && visited[i] in RowIndex(db, category) && RowIndex(db, category)[visited[i]] == shelf[n].id
                  && shelf[n].id in db.books && db.books[shelf[n].id] == shelf[n] && shelf[n].id != ""
                  && OnShelf(shelf[n], user, category) && shelf[n].userID == user)
            && (n < |shelf| ==> (shelf[n].id == cursor <==> n < Position(shelf, cursor)))
  {
    hide ExactBuckets, DB.Exact, IsSelection, HasNul, SeekFrom, ShelfOf, RowKey, QueryPrefix, OnShelf, QueryStart;
    hide RowIndex, Sorted, Before, Offset, Position, Rows;
    var visited := SeekFrom(RowIndex(db, category).Keys, QueryStart(db, user, cursor, s, category));
    var rows, o := Rows(db.lower, shelf, s, category), Offset(shelf, cursor);
    VisitsRows(db, user, category, s, shelf, cursor);
    RowsCorrect(db, user, category, s, shelf);
    RowsLength(db.lower, shelf, s, category);
    VisitedAt(visited, rows, o, QueryPrefix(user, s, category), i);
    if o + i < |shelf| {
      OnThisShelf(db, user, category, s, shelf, o + i);
      CursorPosition(db, user, category, s, shelf, cursor, o + i);
    }
  }

  lemma RowsLength(lower: Lowering, shelf: seq<Book>, s: BookSort, category: Option<string>)
    ensures |Rows(lower, shelf, s, category)| == |shelf|
  {
  }

  lemma VisitedAt(visited: seq<string>, rows: seq<string>, o: nat, prefix: string, i: nat)
    requires o <= |rows| && |visited| >= |rows| - o && visited[..|rows| - o] == rows[o..] && i <= |rows| - o
    requires |visited| > |rows| - o ==> !(prefix <= visited[|rows| - o])
    requires forall k <- rows :: prefix <= k
    ensures (i < |visited| && prefix <= visited[i]) <==> o + i < |rows|
    ensures o + i < |rows| ==> visited[i] == rows[o + i]
  {
    if o + i < |rows| {
      assert visited[i] == visited[..|rows| - o][i] == rows[o..][i] == rows[o + i];
      assert rows[o + i] in rows;
    }
  }

  lemma CursorPosition(db: DB, user: string, category: Option<string>, s: BookSort, shelf: seq<Book>, cursor: string,
                       n: nat)
    requires ShelfOf(db, user, category, s, shelf) && Offset(shelf, cursor) <= n < |shelf|
    ensures shelf[n].id == cursor <==> n < Position(shelf, cursor)
  {
    hide WellKeyed, IsArrangement;
    if shelf[n].id == cursor { PositionOf(shelf, n); }
  }

  /** Walks a shelf in its stored order and stops one match past the page. */
  method ScanSortedBooks(db: DB, user: string, query: string, cursor: string, limit: nat, s: BookSort,
                         category: Option<string>, ghost shelf: seq<Book>)
    returns (books: seq<Book>)
    requires db.Exact() && user != "" && IsOwner(user) && IsSelection(category) && limit > 0
    requires ShelfOf(db, user, category, s, shelf)
    ensures books == FirstMatches(Matching(db.lower, After(shelf, cursor), query), limit)
  {
    hide ExactBuckets, ShelfOf, QueryStart, RowIndex, QueryPrefix, OnShelf, Matches, Matching, Collected;
    hide After, Position, Offset, FirstMatches, Sorted, DB.Exact, SeekFrom, IsSelection;
    books := [];
    var prefix, start := QueryPrefix(user, s, category), QueryStart(db, user, cursor, s, category);
    var index := RowIndex(db, category);
    var visited := SeekFrom(index.Keys, start);
    ghost var o, from := Offset(shelf, cursor), Position(shelf, cursor);
    OffsetBelow(shelf, cursor);
    NothingCollected(db.lower, shelf, from, o, query);
    var i := 0;
    RowAt(db, user, category, s, shelf, cursor, i);
    while i < |visited| && prefix <= visited[i]
      invariant 0 <= i <= |shelf| - o
      invariant (i < |visited| && prefix <= visited[i]) <==> o + i < |shelf|
      invariant |books| <= limit
      invariant Collected(db.lower, shelf, from, o + i, query, books)
    {
      OneMoreRow(db.lower, shelf, from, o + i, query, books);
      RowAt(db, user, category, s, shelf, cursor, i);
      RowAt(db, user, category, s, shelf, cursor, i + 1);
      var id := index[visited[i]];
      i := i + 1;
      if id == cursor { continue; }
      var found := MatchingRecord(db, user, id, query, category);
      if found == None { continue; }
      books := books + [found.value];
      if |books| > limit {
        Enough(db.lower, shelf, cursor, o + i, query, books, limit);
        return;
      }
    }
    Enough(db.lower, shelf, cursor, |shelf|, query, books, limit);
  }

  lemma OnThisShelf(db: DB, user: string, category: Option<string>, s: BookSort, shelf: seq<Book>, i: nat)
    requires ShelfOf(db, user, category, s, shelf) && i < |shelf|
    ensures var b := shelf[i];
            b.id in db.books && db.books[b.id] == b && OnShelf(b, user, category) && b.userID == user && b.id != ""
  {
    hide Precedes, CategoryOf;
    assert shelf[i] in shelf;
  }

  /** A page of a shelf: what filtering and cutting the whole shelf would give. */
  method ListBooksBySortedCursor(db: DB, user: string, cursor: string, limit: int, sortKey: string,
                                 filter: Option<string>)
    returns (page: Page)
    requires db.Exact() && IsOwner(user)
    ensures WellKeyed(db.books)
    ensures user == "" || limit <= 0 ==> page == Page([], "")
    ensures user != "" && limit > 0 ==>
      var shelf := Shelf(db.lower, db.books, user, SelectedBookCategory(filter), NormalizeBookSort(sortKey));
      page == PageAfter(db.lower, shelf, "", cursor, limit)
  {
    hide IsLowering, Derived, CountsExact, ContentExact, SummaryExact, ProgressKeyed, TimeExact, IsBook, Matching;
    if user == "" || limit <= 0 { return Page([], ""); }
    var s, category := NormalizeBookSort(sortKey), SelectedBookCategory(filter);
    ghost var shelf := Shelf(db.lower, db.books, user, category, s);
    ShelfIsShelf(db, user, category, s);
    var books := ScanSortedBooks(db, user, "", cursor, limit, s, category, shelf);
    Lookahead(Matching(db.lower, After(shelf, cursor), ""), limit);
    page := PageOf(books, limit);
  }

  lemma ShelfIsShelf(db: DB, user: string, category: Option<string>, s: BookSort)
    requires WellKeyed(db.books)
    ensures ShelfOf(db, user, category, s, Shelf(db.lower, db.books, user, category, s))
  {
    hide Precedes, IsBook;
    var ids := ShelfIds(db.books, user, category);
    ArrangedCorrect(db.lower, db.books, s, ids);
    ArrangementDistinct(db.lower, db.books, s, ids, Shelf(db.lower, db.books, user, category, s));
  }

  // ---- search ----

  /** The gram with the fewest postings; the first one without any ends the search. */
  method MostSelectiveBookSearchGram(db: DB, user: string, grams: seq<string>) returns (selected: string, count: int)
    ensures grams == [] ==> count == -1
    ensures grams != [] ==> selected in grams && count == CountAt(db.gramCounts, GramPrefix(user, selected))
    ensures grams != [] ==> count == 0 || forall g <- grams :: count <= CountAt(db.gramCounts, GramPrefix(user, g))
  {
    hide GramPrefix;
    selected, count := "", -1;
    var i := 0;
    while i < |grams|
      invariant 0 <= i <= |grams|
      invariant i == 0 ==> count == -1
      invariant i > 0 ==> selected in grams && count == CountAt(db.gramCounts, GramPrefix(user, selected)) && count > 0
      invariant i > 0 ==> forall j :: 0 <= j < i ==> count <= CountAt(db.gramCounts, GramPrefix(user, grams[j]))
    {
      var n := CountAt(db.gramCounts, GramPrefix(user, grams[i]));
      if n == 0 { return grams[i], 0; }
      if count < 0 || n < count {
        selected, count := grams[i], n;
      }
      i := i + 1;
    }
  }

  /** Whether shelf order is the cheaper plan. Either plan returns the same page. */
  method IsBroad(db: DB, user: string, count: int, limit: int, category: Option<string>, noGrams: bool)
    returns (broad: bool)
    ensures noGrams ==> broad
  {
    broad := noGrams;
    if !noGrams && count > Max(64, limit * 4) {
      var summary := LoadSummary(db.summaries, user);
      var population := summary.total;
      if category.Some? {
        population := summary.uncategorized;
        if category.value != "" {
          population := CategoryCount(summary, category.value);
        }
      }
      broad := count > population / 4;
    }
  }

  datatype Candidate = Candidate(book: Book, key: string)

  ghost predicate KeySorted(cs: seq<Candidate>) {
    forall i, j :: 0 <= i < j < |cs| ==> Before(cs[i].key, cs[j].key)
  }

  /** sort.Slice by key, for candidates whose keys differ. */
  method SortCandidates(cs: seq<Candidate>) returns (r: seq<Candidate>)
    requires forall i, j :: 0 <= i < j < |cs| ==> cs[i].key != cs[j].key
    ensures KeySorted(r) && |r| == |cs| && forall c :: c in r <==> c in cs
  {
    hide Before;
    r := [];
    var n := 0;
    while n < |cs|
      invariant 0 <= n <= |cs| == |cs| && |r| == n
      invariant KeySorted(r)
      invariant forall c :: c in r <==> c in cs[..n]
    {
      var c := cs[n];
      assert cs[..n + 1] == cs[..n] + [c];
      assert forall j :: 0 <= j < n ==> r[j] in cs[..n];
      var i := n;
      while i > 0 && !Before(r[i - 1].key, c.key)
        invariant 0 <= i <= n
        invariant forall j :: i <= j < n ==> Before(c.key, r[j].key)
      {
        BeforeTotal(c.key, r[i - 1].key);
        i := i - 1;
      }
      forall j | 0 <= j < i ensures Before(r[j].key, c.key) {
        if j < i - 1 { BeforeTransitive(r[j].key, r[i - 1].key, c.key); }
      }
      r := r[..i] + [c] + r[i..];
      n := n + 1;
    }
    assert cs[..n] == cs;
  }

  /** The books a search must return, in order. */
  ghost function Wanted(db: DB, shelf: seq<Book>, cursor: string, query: string): seq<Book>
    reads db
  {
    Matching(db.lower, After(shelf, cursor), query)
  }

  lemma InRest(shelf: seq<Book>, cursor: string, i: nat)
    requires DistinctIds(shelf) && i < |shelf|
    ensures shelf[i] in After(shelf, cursor) <==> i >= Position(shelf, cursor)
  {
    var p := Position(shelf, cursor);
    if i >= p {
      assert After(shelf, cursor)[i - p] == shelf[i];
    } else {
      assert forall j :: p <= j < |shelf| ==> shelf[j].id != shelf[i].id;
    }
  }

  lemma SortedIff(rows: seq<string>, i: nat, j: nat)
    requires Sorted(rows) && i < |rows| && j < |rows|
    ensures Before(rows[i], rows[j]) <==> i < j
  {
    hide Before;
    BeforeIrreflexive(rows[i]);
    if j < i { BeforeAsymmetric(rows[j], rows[i]); }
  }

  /** Being behind the cursor on the shelf is having a later row. */
  lemma BehindCursor(db: DB, user: string, category: Option<string>, s: BookSort, shelf: seq<Book>, cursor: string,
                     b: Book)
    requires db.Exact() && user != "" && !HasNul(user) && IsSelection(category)
    requires ShelfOf(db, user, category, s, shelf) && b in shelf
    ensures var start := QueryStart(db, user, cursor, s, category);
            b in After(shelf, cursor) <==>
              |start| <= |QueryPrefix(user, s, category)| || Before(start, RowKey(db.lower, b, s, category))
  {
    hide ExactBuckets, RowKey, QueryPrefix, QueryStart, Before, Sorted, After, Position, IsArrangement, WellKeyed;
    hide OnShelf, IsSelection, DB.Exact, HasNul, RowIndex;
    var i :| 0 <= i < |shelf| && shelf[i] == b;
    var p := Position(shelf, cursor);
    StartAt(db, user, category, s, shelf, cursor);
    InRest(shelf, cursor, i);
    if p > 0 {
      var rows := Rows(db.lower, shelf, s, category);
      RowsCorrect(db, user, category, s, shelf);
      assert rows[p - 1] == RowKey(db.lower, shelf[p - 1], s, category) && rows[i] == RowKey(db.lower, b, s, category);
      SortedIff(rows, p - 1, i);
    }
  }

  lemma WantedIff(db: DB, user: string, category: Option<string>, s: BookSort, shelf: seq<Book>, cursor: string,
                  query: string, b: Book)
    requires db.Exact() && user != "" && !HasNul(user) && IsSelection(category)
    requires ShelfOf(db, user, category, s, shelf) && b.id in db.books && db.books[b.id] == b
    ensures var start := QueryStart(db, user, cursor, s, category);
            b in Wanted(db, shelf, cursor, query) <==>
              && Matches(db.lower, b, query) && OnShelf(b, user, category)
              && (|start| <= |QueryPrefix(user, s, category)| || Before(start, RowKey(db.lower, b, s, category)))
  {
    hide ExactBuckets, Matches, OnShelf, QueryStart, RowKey, QueryPrefix, Before, Precedes, WellKeyed;
    assert b in shelf <==> OnShelf(b, user, category) by {
      if b in shelf {
        var i :| 0 <= i < |shelf| && shelf[i] == b;
        assert shelf[i].id in ShelfIds(db.books, user, category);
      }
    }
    if b in shelf {
      BehindCursor(db, user, category, s, shelf, cursor, b);
    } else {
      assert b !in After(shelf, cursor);
    }
  }

  ghost predicate InOrder(lower: Lowering, s: BookSort, list: seq<Book>) {
    forall i, j :: 0 <= i < j < |list| ==> Precedes(lower, s, list[i], list[j])
  }

  lemma InOrderCons(lower: Lowering, s: BookSort, b: Book, list: seq<Book>)
    requires InOrder(lower, s, list) && forall o <- list :: Precedes(lower, s, b, o)
    ensures InOrder(lower, s, [b] + list)
  {
    hide Precedes;
    var m := [b] + list;
    forall i, j | 0 <= i < j < |m| ensures Precedes(lower, s, m[i], m[j]) {
      assert m[j] == list[j - 1] && m[j] in list;
      if i > 0 { assert m[i] == list[i - 1]; }
    }
  }

  /** The wanted books are in shelf order. */
  lemma {:induction false} MatchingOrdered(lower: Lowering, s: BookSort, list: seq<Book>, query: string)
    requires InOrder(lower, s, list)
    ensures InOrder(lower, s, Matching(lower, list, query))
  {
    hide Precedes, Matches;
    if list != [] {
      MatchingOrdered(lower, s, list[1..], query);
      forall o | o in Matching(lower, list[1..], query) ensures Precedes(lower, s, list[0], o) {
        var k :| 0 <= k < |list| - 1 && list[1..][k] == o;
        assert list[k + 1] == o;
      }
      InOrderCons(lower, s, list[0], Matching(lower, list[1..], query));
    }
  }

  lemma PostingParts(user: string, gram: string, rest: string, u: string, g: string, id: string)
    requires !HasNul(user) && !HasNul(gram) && !HasNul(u) && !HasNul(g)
    requires GramPrefix(user, gram) + rest == GramKey(u, g, id)
    ensures user == u && gram == g && rest == id
  {
    var k := GramKey(u, g, id);
    assert k == user + NUL + (gram + NUL + rest);
    assert k == u + NUL + (g + NUL + id);
    BeforeJoined(user, gram + NUL + rest, u, g + NUL + id);
    BeforeJoined(gram, rest, g, id);
  }

  /** A posting under (user, gram) belongs to an owned book whose text has the gram. */
  lemma PostingOwner(db: DB, user: string, gram: string, k: string)
    requires db.Exact() && !HasNul(user) && !HasNul(gram)
    requires k in db.gramIndex && GramPrefix(user, gram) <= k
    ensures var id := k[|GramPrefix(user, gram)|..];
            id in db.books && db.books[id].userID == user && id != "" && k == GramPrefix(user, gram) + id
  {
    hide IsLowering, CountsExact, ContentExact, SummaryExact, ProgressKeyed, TimeExact;
    hide SearchText, IsOwner, GramKey, GramPrefix, GramsOf;
    var id :| id in db.books && k in Keys(db.lower, ByGram, db.books[id]);
    hide Derived;
    var b := db.books[id];
    var g :| g in GramsOf(SearchText(db.lower, b)) && k == GramKey(b.userID, g, b.id);
    NoSeparators(b);
    GramHasNoNul(SearchText(db.lower, b), g);
    var rest := k[|GramPrefix(user, gram)|..];
    assert k == GramPrefix(user, gram) + rest;
    PostingParts(user, gram, rest, b.userID, g, b.id);
  }

  lemma GramHasNoNul(text: string, gram: string)
    requires !HasNul(text) && gram in GramsOf(text)
    ensures !HasNul(gram)
  {
  }

  /** Every gram of a matching query is posted for the book. */
  lemma PostingOf(db: DB, user: string, b: Book, query: string, gram: string)
    requires db.Exact() && user != "" && b.userID == user && b.id in db.books && db.books[b.id] == b
    requires query != "" && Matches(db.lower, b, query) && gram in GramsOf(query)
    ensures GramPrefix(user, gram) + b.id in db.gramIndex
    ensures CountAt(db.gramCounts, GramPrefix(user, gram)) > 0
  {
    hide IsLowering, Derived, ContentExact, SummaryExact, ProgressKeyed, TimeExact, SearchText, IsOwner;
    GramsOfMatch(SearchText(db.lower, b), query);
    assert IsBook(b);
    assert GramKey(user, gram, b.id) == GramPrefix(user, gram) + b.id;
    assert GramKey(user, gram, b.id) in Keys(db.lower, ByGram, b);
    DerivedEntry(db.lower, ByGram, db.books, db.gramIndex, b.id, GramKey(user, gram, b.id));
    assert b.id in Posters(db.lower, db.books, GramPrefix(user, gram));
  }

  /** The candidates after n postings: each wanted, each with its row, none twice. */
  ghost predicate Gathered(db: DB, shelf: seq<Book>, cursor: string, query: string, s: BookSort,
                           category: Option<string>,
                           prefix: string, postings: seq<string>, cs: seq<Candidate>)
    reads db
  {
    && (forall c <- cs :: c.book in Wanted(db, shelf, cursor, query) && c.key == RowKey(db.lower, c.book, s, category))
    && (forall c <- cs :: prefix + c.book.id in postings)
    && (forall b <- Wanted(db, shelf, cursor, query) ::
          prefix + b.id in postings ==> Candidate(b, RowKey(db.lower, b, s, category)) in cs)
    && (forall i, j :: 0 <= i < j < |cs| ==> cs[i].book.id != cs[j].book.id)
  }

  /** Taking one more posting keeps the candidates complete. */
  lemma GatherOne(db: DB, shelf: seq<Book>, cursor: string, query: string, s: BookSort, category: Option<string>,
                  prefix: string, postings: seq<string>, cs: seq<Candidate>, b: Book, k: string)
    requires Gathered(db, shelf, cursor, query, s, category, prefix, postings, cs)
    requires k == prefix + b.id && k !in postings
    requires forall o <- Wanted(db, shelf, cursor, query) :: o.id == b.id ==> o == b
    ensures Gathered(db, shelf, cursor, query, s, category, prefix, postings + [k],
              if b in Wanted(db, shelf, cursor, query) then cs + [Candidate(b, RowKey(db.lower, b, s, category))]
               else cs)
  {
    hide Wanted, RowKey;
    forall o <- Wanted(db, shelf, cursor, query)
      ensures prefix + o.id == k ==> o == b
    {
      if prefix + o.id == k {
        assert o.id == k[|prefix|..] == b.id;
      }
    }
  }

  /** The rows of the wanted books, which are sorted. */
  ghost function WantedRows(lower: Lowering, wanted: seq<Book>, s: BookSort, category: Option<string>): seq<string> {
    seq(|wanted|, i requires 0 <= i < |wanted| => RowKey(lower, wanted[i], s, category))
  }

  lemma WantedRowsSorted(db: DB, user: string, category: Option<string>, s: BookSort, shelf: seq<Book>,
                         cursor: string, query: string)
    requires ShelfOf(db, user, category, s, shelf)
    ensures Sorted(WantedRows(db.lower, Wanted(db, shelf, cursor, query), s, category))
  {
    hide RowKey, Before, Precedes, OnShelf, Matches, Matching, WellKeyed;
    var w := Wanted(db, shelf, cursor, query);
    MatchingOrdered(db.lower, s, After(shelf, cursor), query);
    forall b | b in w ensures OnShelf(b, user, category) {
      assert b in After(shelf, cursor);
      var i :| 0 <= i < |shelf| && shelf[i] == b;
    }
    hide ShelfOf;
    var rows := WantedRows(db.lower, w, s, category);
    forall i, j | 0 <= i < j < |rows| ensures Before(rows[i], rows[j]) {
      assert w[i] in w && w[j] in w;
      RowOrder(db.lower, w[i], w[j], s, user, category);
    }
  }

  ghost function CandidateKeys(cs: seq<Candidate>): seq<string> {
    seq(|cs|, i requires 0 <= i < |cs| => cs[i].key)
  }

  /** Exactly the wanted books, each with its row. */
  ghost predicate AreWanted(lower: Lowering, wanted: seq<Book>, s: BookSort, category: Option<string>,
                            cs: seq<Candidate>) {
    && (forall c <- cs :: c.book in wanted && c.key == RowKey(lower, c.book, s, category))
    && (forall b <- wanted :: Candidate(b, RowKey(lower, b, s, category)) in cs)
  }

  lemma KeysAreRows(lower: Lowering, wanted: seq<Book>, s: BookSort, category: Option<string>, cs: seq<Candidate>,
                    k: string)
    requires AreWanted(lower, wanted, s, category, cs)
    ensures k in CandidateKeys(cs) <==> k in WantedRows(lower, wanted, s, category)
  {
    hide RowKey;
    if k in CandidateKeys(cs) {
      var i :| 0 <= i < |cs| && cs[i].key == k;
      assert cs[i] in cs;
      var j :| 0 <= j < |wanted| && wanted[j] == cs[i].book;
      assert WantedRows(lower, wanted, s, category)[j] == k;
    }
    if k in WantedRows(lower, wanted, s, category) {
      var j :| 0 <= j < |wanted| && WantedRows(lower, wanted, s, category)[j] == k;
      assert wanted[j] in wanted;
      var i :| 0 <= i < |cs| && cs[i] == Candidate(wanted[j], k);
      assert CandidateKeys(cs)[i] == k;
    }
  }

  /** Sorting all wanted books by row gives exactly the wanted list. */
  lemma SortedIsWanted(lower: Lowering, wanted: seq<Book>, s: BookSort, category: Option<string>, cs: seq<Candidate>)
    requires KeySorted(cs) && AreWanted(lower, wanted, s, category, cs)
    requires Sorted(WantedRows(lower, wanted, s, category))
    ensures |cs| == |wanted| && forall i :: 0 <= i < |cs| ==> cs[i].book == wanted[i]
  {
    hide RowKey, Before;
    var rows, keys := WantedRows(lower, wanted, s, category), CandidateKeys(cs);
    forall k ensures k in keys <==> k in rows { KeysAreRows(lower, wanted, s, category, cs, k); }
    SortedUnique(keys, rows);
    forall i | 0 <= i < |cs| ensures cs[i].book == wanted[i] {
      assert cs[i] in cs;
      var j :| 0 <= j < |wanted| && wanted[j] == cs[i].book;
      assert rows[j] == cs[i].key == keys[i] == rows[i];
      BeforeIrreflexive(rows[i]);
    }
  }

  lemma SameCandidates(lower: Lowering, wanted: seq<Book>, s: BookSort, category: Option<string>, cs: seq<Candidate>,
                       sorted: seq<Candidate>)
    requires AreWanted(lower, wanted, s, category, cs) && forall c :: c in sorted <==> c in cs
    ensures AreWanted(lower, wanted, s, category, sorted)
  {
    hide RowKey;
  }

  /** The rarest-gram plan: check every book posted under one gram of the query,
      then put the survivors in shelf order. */
  method SearchByGram(db: DB, user: string, query: string, cursor: string, limit: nat, s: BookSort,
                      category: Option<string>, gram: string, ghost shelf: seq<Book>)
    returns (books: seq<Book>)
    requires db.Exact() && user != "" && IsOwner(user) && IsSelection(category) && limit > 0
    requires ShelfOf(db, user, category, s, shelf)
    requires query != "" && !HasNul(query) && gram in GramsOf(query)
    ensures books == FirstMatches(Matching(db.lower, After(shelf, cursor), query), limit)
  {
    hide ExactBuckets, ShelfOf, QueryStart, QueryPrefix, OnShelf, Matches, RowKey, Gathered, Wanted, GramPrefix,
         Sorted, Before;
    hide AreWanted, WantedRows;
    var start, sortPrefix := QueryStart(db, user, cursor, s, category), QueryPrefix(user, s, category);
    var prefix := GramPrefix(user, gram);
    var postings := SeekFrom(db.gramIndex.Keys, prefix);
    var candidates: seq<Candidate> := [];
    GramHasNoNul(query, gram);
    NothingGathered(db, shelf, cursor, query, s, category, prefix);
    var i := 0;
    assert postings[..0] == [];
    while i < |postings| && prefix <= postings[i]
      invariant 0 <= i <= |postings|
      invariant Gathered(db, shelf, cursor, query, s, category, prefix, postings[..i], candidates)
    {
      var key := postings[i];
      assert key in postings;
      var id := key[|prefix|..];
      PostingOwner(db, user, gram, key);
      ghost var b := db.books[id];
      RecordId(db, id);
      WantedIff(db, user, category, s, shelf, cursor, query, b);
      WantedUnique(db, user, category, s, shelf, cursor, query, b);
      NotVisited(postings, i);
      GatherOne(db, shelf, cursor, query, s, category, prefix, postings[..i], candidates, b, key);
      assert postings[..i + 1] == postings[..i] + [key];
      i := i + 1;
      var found := MatchingRecord(db, user, id, query, category);
      if found == None { continue; }
      var orderKey := RowKey(db.lower, found.value, s, category);
      if |start| > |sortPrefix| && !Before(start, orderKey) { continue; }
      candidates := candidates + [Candidate(found.value, orderKey)];
    }
    AllGathered(db, user, category, s, shelf, cursor, query, gram, i, candidates);
    var sorted := SortCandidates(candidates);
    WantedRowsSorted(db, user, category, s, shelf, cursor, query);
    SameCandidates(db.lower, Wanted(db, shelf, cursor, query), s, category, candidates, sorted);
    SortedIsWanted(db.lower, Wanted(db, shelf, cursor, query), s, category, sorted);
    books := [];
    var n := 0;
    while n < |sorted| && n <= limit
      invariant 0 <= n <= |sorted| && n <= limit + 1
      invariant |books| == n && forall j :: 0 <= j < n ==> books[j] == sorted[j].book
    {
      books := books + [sorted[n].book];
      n := n + 1;
    }
    FirstOfWanted(Wanted(db, shelf, cursor, query), books, limit);
    WantedIs(db, shelf, cursor, query);
  }

  lemma WantedIs(db: DB, shelf: seq<Book>, cursor: string, query: string)
    ensures Wanted(db, shelf, cursor, query) == Matching(db.lower, After(shelf, cursor), query)
  {
  }

  lemma FirstOfWanted(wanted: seq<Book>, books: seq<Book>, limit: nat)
    requires |books| == (if |wanted| <= limit then |wanted| else limit + 1)
    requires forall j :: 0 <= j < |books| ==> books[j] == wanted[j]
    ensures books == FirstMatches(wanted, limit)
  {
  }

  lemma RecordId(db: DB, id: string)
    requires db.Exact() && id in db.books
    ensures db.books[id].id == id
  {
    hide IsLowering, Derived, CountsExact, ContentExact, SummaryExact, ProgressKeyed, TimeExact, IsBook;
  }

  lemma NotVisited(visited: seq<string>, i: nat)
    requires Sorted(visited) && i < |visited|
    ensures visited[i] !in visited[..i]
  {
    forall j | 0 <= j < i ensures visited[j] != visited[i] {
      BeforeIrreflexive(visited[i]);
    }
  }

  lemma NothingGathered(db: DB, shelf: seq<Book>, cursor: string, query: string, s: BookSort,
                        category: Option<string>, prefix: string)
    ensures Gathered(db, shelf, cursor, query, s, category, prefix, [], [])
  {
  }

  /** A wanted book is the stored record of its identifier. */
  lemma WantedStored(db: DB, user: string, category: Option<string>, s: BookSort, shelf: seq<Book>, cursor: string,
                     query: string, b: Book)
    requires ShelfOf(db, user, category, s, shelf) && b in Wanted(db, shelf, cursor, query)
    ensures b.id in db.books && db.books[b.id] == b && OnShelf(b, user, category) && Matches(db.lower, b, query)
  {
    hide Precedes, OnShelf, Matches, IsBook;
    assert b in After(shelf, cursor);
    var i :| 0 <= i < |shelf| && shelf[i] == b;
  }

  lemma WantedUnique(db: DB, user: string, category: Option<string>, s: BookSort, shelf: seq<Book>, cursor: string,
                     query: string, b: Book)
    requires ShelfOf(db, user, category, s, shelf) && b.id in db.books && db.books[b.id] == b
    ensures forall o <- Wanted(db, shelf, cursor, query) :: o.id == b.id ==> o == b
  {
    hide ShelfOf, Wanted;
    forall o | o in Wanted(db, shelf, cursor, query) && o.id == b.id ensures o == b {
      WantedStored(db, user, category, s, shelf, cursor, query, o);
    }
  }

  /** At the end of the postings every wanted book is a candidate: a match has every
      gram of the query, so it was posted under this one. */
  lemma AllGathered(db: DB, user: string, category: Option<string>, s: BookSort, shelf: seq<Book>, cursor: string,
                    query: string, gram: string, n: nat, cs: seq<Candidate>)
    requires db.Exact() && user != "" && IsOwner(user) && ShelfOf(db, user, category, s, shelf)
    requires query != "" && gram in GramsOf(query)
    requires var postings, prefix := SeekFrom(db.gramIndex.Keys, GramPrefix(user, gram)), GramPrefix(user, gram);
             && n <= |postings| && (n < |postings| ==> !(prefix <= postings[n]))
             && Gathered(db, shelf, cursor, query, s, category, prefix, postings[..n], cs)
    ensures AreWanted(db.lower, Wanted(db, shelf, cursor, query), s, category, cs)
    ensures forall i, j :: 0 <= i < j < |cs| ==> cs[i].key != cs[j].key
  {
    hide ExactBuckets, ShelfOf, OnShelf, Matches, RowKey, Wanted, GramPrefix, Sorted, Before, GramsOf;
    var prefix := GramPrefix(user, gram);
    forall b | b in Wanted(db, shelf, cursor, query) ensures Candidate(b, RowKey(db.lower, b, s, category)) in cs {
      WantedStored(db, user, category, s, shelf, cursor, query, b);
      OwnerOnShelf(b, user, category);
      PostingOf(db, user, b, query, gram);
      var k := prefix + b.id;
      PrefixNotAfter(prefix, k);
      if Before(k, prefix) { BeforeAsymmetric(k, prefix); }
      BeforeIrreflexive(prefix);
      ScanCovers(db.gramIndex.Keys, prefix, prefix, n, k);
    }
    forall i, j | 0 <= i < j < |cs| ensures cs[i].key != cs[j].key {
      assert cs[i] in cs && cs[j] in cs;
      WantedStored(db, user, category, s, shelf, cursor, query, cs[i].book);
      WantedStored(db, user, category, s, shelf, cursor, query, cs[j].book);
      if cs[i].key == cs[j].key { RowKeysDiffer(db, cs[i].book, cs[j].book, s, category); }
    }
  }

  lemma OwnerOnShelf(b: Book, user: string, category: Option<string>)
    requires OnShelf(b, user, category)
    ensures b.userID == user
  {
  }

  lemma RowKeysDiffer(db: DB, a: Book, b: Book, s: BookSort, category: Option<string>)
    requires db.Exact() && a.id in db.books && db.books[a.id] == a && b.id in db.books && db.books[b.id] == b
    requires RowKey(db.lower, a, s, category) == RowKey(db.lower, b, s, category)
    ensures a.id == b.id
  {
    hide IsLowering, Derived, CountsExact, ContentExact, SummaryExact, ProgressKeyed, TimeExact, SortValue, CategoryOf;
    NoSeparators(a);
    NoSeparators(b);
    var x := if category.Some? then CategoryPrefix(a.userID, CategoryOf(a), s) + SortValue(db.lower, a, s)
             else SortPrefix(a.userID, s) + SortValue(db.lower, a, s);
    var y := if category.Some? then CategoryPrefix(b.userID, CategoryOf(b), s) + SortValue(db.lower, b, s)
             else SortPrefix(b.userID, s) + SortValue(db.lower, b, s);
    LastComponent(x, y, '\0', a.id, b.id);
  }

  /** Search returns the page that filtering the whole shelf by substring would give,
      whichever plan it picks. */
  method SearchBooks(db: DB, user: string, rawQuery: string, cursor: string, limit: int, sortKey: string,
                     filter: Option<string>)
    returns (page: Page)
    requires db.Exact() && IsOwner(user)
    ensures WellKeyed(db.books)
    ensures user == "" || Normalize(db.lower, rawQuery) == "" || limit <= 0 ==> page == Page([], "")
    ensures user != "" && Normalize(db.lower, rawQuery) != "" && limit > 0 ==>
      var shelf := Shelf(db.lower, db.books, user, SelectedBookCategory(filter), NormalizeBookSort(sortKey));
      page == PageAfter(db.lower, shelf, Normalize(db.lower, rawQuery), cursor, limit)
  {
    hide IsLowering, Derived, CountsExact, ContentExact, SummaryExact, ProgressKeyed, TimeExact, IsBook;
    hide Matching, GramsOf, Normalize, GramPrefix, OnShelf, Precedes;
    var query := Normalize(db.lower, rawQuery);
    if user == "" || query == "" || limit <= 0 { return Page([], ""); }
    var s, category := NormalizeBookSort(sortKey), SelectedBookCategory(filter);
    ghost var shelf := Shelf(db.lower, db.books, user, category, s);
    ShelfIsShelf(db, user, category, s);
    var grams := BookSearchGrams(db.lower, query);
    NormalizeIdempotent(db.lower, rawQuery);
    var gram, count := MostSelectiveBookSearchGram(db, user, grams);
    var books: seq<Book>;
    if |grams| > 0 && count == 0 {
      books := [];
      NothingPosted(db, user, category, s, shelf, cursor, query, gram);
    } else {
      var broad := IsBroad(db, user, count, limit, category, |grams| == 0);
      if broad {
        books := ScanSortedBooks(db, user, query, cursor, limit, s, category, shelf);
      } else {
        books := SearchByGram(db, user, query, cursor, limit, s, category, gram, shelf);
      }
    }
    Lookahead(Matching(db.lower, After(shelf, cursor), query), limit);
    page := PageOf(books, limit);
  }

  /** A gram without postings means no book can match. */
  lemma NothingPosted(db: DB, user: string, category: Option<string>, s: BookSort, shelf: seq<Book>, cursor: string,
                      query: string, gram: string)
    requires db.Exact() && user != "" && ShelfOf(db, user, category, s, shelf)
    requires query != "" && gram in GramsOf(query) && CountAt(db.gramCounts, GramPrefix(user, gram)) == 0
    ensures Matching(db.lower, After(shelf, cursor), query) == []
  {
    hide ExactBuckets, ShelfOf, OnShelf, Matches, GramPrefix, GramsOf;
    var w := Matching(db.lower, After(shelf, cursor), query);
    if w != [] {
      var b := w[0];
      assert b in Wanted(db, shelf, cursor, query);
      WantedStored(db, user, category, s, shelf, cursor, query, b);
      OwnerOnShelf(b, user, category);
      PostingOf(db, user, b, query, gram);
      assert false;
    }
  }
}
