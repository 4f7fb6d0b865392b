# Z-Reader: model and proofs

Z-Reader is a self-hosted e-book reader. This project models the parts of it whose correctness does
not show from reading one function, and proves what they promise.

**The library store** (`backend/storage`, `backend/handlers/legacy_hash_backfill.go`). Books live in one
key/value bucket; about ten other buckets are derived from it and patched incrementally by every
mutator, rebuilt by migrations and trusted by queries. `Indexes` says what "exact" means for each
derived bucket and proves that adding, removing and replacing one record keeps it; `Store` has the
mutators as methods of a class whose fields are the buckets, each one leaving every bucket exact;
`Replay` carries that over whole runs and proves what runs keep (no lost progress update, renames
conserve, no duplicate content); `Migration` proves that a rebuild of an exact store changes nothing.
`Shelves` defines a user's list, a page and a walk by brute force, and `Queries` proves listing and
search, with both search plans, equal to it. `Backfill` and `ProgressSync` cover the backlog walk and
progress synchronisation, `BackfillRuns` a batch with other transactions in between. `ByteOrder`, `Text`,
`Base64`, `Clock` and `Library` hold keys and texts.

**EPUB CFIs** (`epubcfi.js`, after EPUB Canonical Fragment Identifiers 1.1, sections 2.2, 2.3 and 3.3).
`CfiSyntax` is the tokenizer machine, the parser and the printer; `CfiReading` and `CfiRoundTrip` prove
that parsing what was printed gives a canonical form, and `CfiSides` exactly which CFIs survive unchanged,
side biases included, by weighing texts (`CfiWeights`), following tokens (`CfiMarks`), counting carets
(`CfiCarets`) and taking one step apart (`CfiOneStep`).
`CfiExample` writes one CFI out. `CfiRange` covers collapsing, building ranges and comparing. `CfiDom` is the
way from a node of a document tree to its steps and back, `CfiNodes` proves that it leads back, `CfiWalks`
says where any steps lead, and `CfiOrder` proves that comparing CFIs is comparing places in document order.

**Speech synthesis** (`tts_cache.go`, `endpoint.go`). `SingleFlight` is the shared call as a state machine
with one step per mutex section or channel operation; `EndpointRefresh` refines it; `Admission` is the
bounded queue; `AudioCache` and `DiskCache` are the two caches.

**MOBI text and small cores.** `RawText` is the text buffer that grows from both ends, `Huffcdic` the
decompressor that overwrites its own dictionary, `RateLimiter` the fixed-window limiter, `Segmenter` the
mapping of speech segments to text runs.

Results worth knowing, each proved:

- The incremental summary bucket keeps an entry that counts nothing after a user's last book goes, and a
  rebuild does not: the two are the same map exactly when no entry counts nothing (`Indexes.ZeroEntryStays`,
  `Indexes.SummaryBucketsEqual`, `Migration.RebuildLibraryQueryIndexes`). What is read from them is the same.
- updateBookSortKey does not check that the book has an owner, as its neighbours do. It keeps the sort buckets
  exact exactly when the book has one or its key stays (`Indexes.ReadKeepsExactIff`), so saving progress as a
  user with an empty identifier lists an unowned book (`Store.DB.SaveProgressIfCurrent`, `Store.NobodyReads`).
- The printer does not escape a side bias. A CFI comes back from print and parse exactly when it is
  `CfiRoundTrip.WellFormed` and no side bias has one of `^ ; = ]` (`CfiSides.ComesBackIff`); with such side
  biases only, any CFI comes back as its canonical form (`CfiSides.ReadsBackIff`). Both are proved for CFIs
  of one step, for those that print no side bias twice, and for those whose side biases leave no escape pending
  outside of brackets, as no side bias without a caret does. So a parsed CFI may not survive the next round
  (`CfiSides.CaretIsLost`, `CfiSides.ParsedSideIsCut`). A text assertion right after a step's number comes back
  as the step's id.
- `collapse(buildRange(a, b), true)` gives `b` exactly when the two points agree on what they share. An
  offset of zero counts as none there (`CfiRange.ZeroOffsetIsShared`).
- A path with an offset and one without tie in `compare` when their steps are the same. A tie is an equality,
  that is, both compare alike with all others, exactly when both end with an offset or neither does, path by
  path (`CfiRange.TieIsExact`, `CfiRange.TieIsEqualityIff`, for steps with numbers). Where paths with the same
  steps end alike, the order is transitive (`CfiRange.CompareTransitive`); otherwise it need not be, and across
  an indirection even strict comparisons can go round in a circle (`CfiRange.MissingOffsetTies`,
  `CfiRange.StrictCircle`).
- With a limit below one, the rate limiter still grants the first request of a window
  (`RateLimiter.FirstIsGranted`): a window has at most maxReqs granted requests on all runs exactly when
  maxReqs is at least one (`RateLimiter.LimitKept`).

Conventions: a bucket is a map, a transaction is atomic, serialisation is the identity; strings are
sequences of code points, whose order is the byte order of their UTF-8 (`Base64.Utf8Order`). Lowercasing is a parameter known
only by its laws (`Text.IsLowering`). Times are integers of nanoseconds. A user or book identifier is not
empty and has no NUL, colon or white space. `hide` statements only keep definitions away from the solver
where a proof does not need them.

`dafny verify dfyconfig.toml` checks the whole project.

## Model

| member | source | states |
|---|---|---|
| `Replay.Perform` | backend/storage/db.go:1011-1119 | Any one transaction on the indexed store changes books and progress as its meaning on the bare books says, rolls back completely when it fails, and leaves every derived bucket exact |
| `Replay.Run` | backend/storage/db.go:1011-1544 | After any admissible sequence of transactions every derived bucket is exact and the books and progress are those of the sequence's meaning |
| `Replay.NoLostUpdate` | backend/storage/db.go:1486-1544 | On any run, with distinct timestamps, a save that expects the version another save wrote lands directly on it: nothing was saved in between |
| `Replay.LastWriter` | backend/storage/db.go:1486-1544 | On any run, what is stored under a progress key after a save was written by the last save to commit there |
| `Replay.OnlyCommitsWrite` | backend/storage/db.go:1486-1544 | A progress record after a step is the one the step committed or was there before; a commit is visible |
| `Replay.RenameConserves` | backend/storage/library_indexes.go:246-319 | The target is the new name without the white space around it; a rename keeps every user's total, moves exactly the user's books in the category, adds its count to the target's, and leaves every other shelf alone |
| `Replay.RunCategoriesTrimmed` | backend/storage/db.go:1895-1904 | No run stores a category that is empty or has white space around it |
| `Replay.RunNoDuplicates` | backend/storage/db.go:1081-1146 | Starting without duplicates, no run of uploads, deletions, category edits and progress saves stores the same content twice for one user |
| `Store.DB.constructor` | backend/storage/db.go:43-65 | An empty store is exact |
| `Store.DB.SaveBook` | backend/storage/db.go:1011-1079 | Stores the record, its category without the white space around it and none for a missing or blank name, whatever it replaces (owner change included), and keeps every bucket exact |
| `Store.DB.CreateBook` | backend/storage/db.go:1081-1119 | Fails exactly when the owner already has a book with that hash, changing nothing; otherwise adds the book with its category trimmed; every bucket stays exact |
| `Store.DB.DuplicateContent` | backend/storage/db.go:1081-1119 | The duplicate test of an upload answers exactly whether the owner has a copy |
| `Store.DB.FindBookByContentHash` | backend/storage/db.go:1121-1146 | Finds a book exactly when the user has one with that hash, and the book found is such a copy, through any creates, saves, backfills and deletes of the canonical one |
| `Store.DB.DeleteBookDataInTx` | backend/storage/db.go:1315-1375 | Succeeds exactly on an owned book, removes it and its progress and nothing else, and keeps every bucket exact |
| `Store.DB.DeleteBookData` | backend/storage/db.go:1377-1382 | The same as one transaction; a failure changes nothing |
| `Store.DB.DeleteBooksData` | backend/storage/db.go:1384-1397 | Deletes all books named, white space around an identifier aside, and their progress and returns each deleted record once, or, if one is unknown or foreign, deletes nothing at all |
| `Store.DB.UpdateBookCategory` | backend/storage/library_indexes.go:246-299 | One record of a category change: only its category changes and every bucket follows exactly |
| `Store.DB.UpdateBooksCategoryInTx` | backend/storage/library_indexes.go:246-299 | Succeeds exactly when every book named, white space around an identifier aside, is the user's; then exactly those take the given category as it is stored, and each new record is returned once if asked for |
| `Store.DB.UpdateBooksCategory` | backend/storage/db.go:1399-1407 | All requested books change category and each new record is returned once, or, if one is unknown or foreign, nothing changes in any bucket |
| `Store.DB.RenameBookCategory` | backend/storage/library_indexes.go:303-319 | Never fails; returns each of the user's books whose category is the one named, white space aside, once, and exactly those take the new category as it is stored |
| `Store.DB.ListedExactly` | backend/storage/library_indexes.go:303-319 | The scan of one category's title keys names exactly the books of that category, each once |
| `Store.DB.BackfillBookContentHashes` | backend/storage/library_indexes.go:160-195 | Whatever the snapshots: no record comes or goes, and each takes the hash of the first snapshot with its identifier, owner and file name if it has none, and otherwise stays as it is; every bucket stays exact |
| `Store.BackfilledRecord` | backend/storage/library_indexes.go:160-195 | The same for the effect on one record, for any books and snapshots: a hash is filled in exactly if some non-empty one is for the owner and file of now, and nothing else of the record changes |
| `Store.DB.SaveProgressIfCurrent` | backend/storage/db.go:1486-1544 | Not found exactly when the book is not the user's; a conflict exactly when a version is expected and the stored one is missing or another; otherwise the record is stored with the book, position, percentage, device and time given and the user, the book's LastReadAt becomes that time, and every bucket stays exact exactly when the user is not empty or the time of the last reading stays; a refusal changes nothing |
| `Store.DB.SummaryReads` | backend/storage/db.go:776-799 | What is read of a summary is the number of the user's books, of those without a category, and of those whose category is the one asked for, white space aside |
| `Store.RequestedIs` | backend/storage/db.go:1810-1822 | A batch requests exactly the identifiers that some entry is, white space around it aside |
| `Store.NobodyReads` | backend/storage/db.go:1486-1544 | The run that breaks exactness: an unowned book is stored and then read by the user with the empty identifier |
| `Store.DB.DeleteProgress` | backend/storage/db.go:1464-1478 | Removes one progress record and its time-index entry only |
| `Store.DB.UpdateBookSortKey` | backend/storage/library_indexes.go:222-244 | Moves one sort key in the sort and category buckets, and touches nothing when the key stays |
| `Store.DB.AddBookToSortIndex` | backend/storage/db.go:645-661 | Adds exactly the book's sort and category keys |
| `Store.DB.RemoveBookFromSortIndex` | backend/storage/db.go:663-679 | Removes exactly the book's sort and category keys |
| `Store.DB.AddBookToSearchGramIndex` | backend/storage/db.go:860-877 | Posts exactly the book's grams and raises the count of each by one |
| `Store.DB.RemoveBookFromSearchGramIndex` | backend/storage/db.go:886-903 | Removes exactly the book's postings and lowers the count of each by one |
| `Store.DB.AdjustBookSearchGramCount` | backend/storage/library_indexes.go:37-50 | Moves one posting count; a count of zero leaves the bucket |
| `Store.DB.TrackMissingBookHash` | backend/storage/library_indexes.go:60-70 | The backlog entry of a book is there exactly when it has an identifier and no hash |
| `Store.DB.AddBookToContentIndex` | backend/storage/db.go:734-750 | Adds the membership of a hashed book and points the canonical entry at it if there was none |
| `Store.DB.RemoveBookFromContentIndex` | backend/storage/db.go:752-774 | Drops the membership and, if the book was canonical, promotes a remaining member or removes the pointer |
| `Store.DB.AdjustLibrarySummary` | backend/storage/db.go:812-837 | Moves one book in or out of its owner's totals |
| `Store.DB.Rollback` | backend/storage/db.go:1081-1119 | A failed transaction restores every bucket |
| `Indexes.DerivedInsert` | backend/storage/db.go:645-661 | Adding a new book's entries to an exact bucket gives the exact bucket of the larger library |
| `Indexes.DerivedRemove` | backend/storage/db.go:663-679 | Removing a book's keys from an exact bucket gives the exact bucket of the smaller library: no key belongs to two books |
| `Indexes.DerivedPatch` | backend/storage/db.go:1011-1079 | Removing the old record's keys and adding the new one's gives the exact bucket of the updated library |
| `Indexes.DerivedUnique` | backend/storage/library_indexes.go:88-104 | The books determine a derived bucket: two exact ones are equal |
| `Indexes.CountsInsert` | backend/storage/db.go:860-877 | Raising a new book's gram counts keeps every count equal to the number of books posted under it |
| `Indexes.CountsRemove` | backend/storage/db.go:886-903 | Lowering a removed book's gram counts keeps every count equal to the number of books posted under it |
| `Indexes.AllGrams` | backend/storage/db.go:860-903 | The posting loop over distinct grams reaches exactly the book's posting keys and count keys |
| `Indexes.ClampsNeverFire` | backend/storage/db.go:812-837 | When a stored book is taken out of an exact summary, its total and its count are positive, so neither clamp at zero acts |
| `Indexes.SummaryInsert` | backend/storage/db.go:812-837 | Adding a book to an exact summary gives the exact summary of the larger library |
| `Indexes.SummaryRemove` | backend/storage/db.go:812-837 | Taking a book out of an exact summary gives the exact summary of the smaller library |
| `Indexes.SummaryUnique` | backend/storage/db.go:783-799 | The books determine what a summary reads as |
| `Indexes.SummaryBucketsEqual` | backend/storage/db.go:994-1009 | Two exact summary buckets are the same map exactly when they have entries for the same users |
| `Indexes.ZeroEntryStays` | backend/storage/db.go:812-837 | A concrete run after which the incremental bucket holds an entry that counts nothing, which a rebuild would not have |
| `Indexes.ContentInsert` | backend/storage/db.go:734-750 | Adding a book keeps memberships and canonical pointers exact: one pointer, to a real copy, for exactly the contents that have one |
| `Indexes.ContentRemove` | backend/storage/db.go:752-774 | Removing a book keeps them exact, whichever remaining copy is promoted |
| `Indexes.TimeInsert` | backend/storage/db.go:1425-1430 | Saving a progress record keeps the time index exact |
| `Indexes.TimeRemove` | backend/storage/db.go:1432-1437 | Dropping a progress record keeps the time index exact |
| `Indexes.TimeUnique` | backend/storage/db.go:1439-1454 | The progress records determine the time index |
| `Indexes.ReadMovesOneKey` | backend/storage/library_indexes.go:222-244 | Changing LastReadAt changes one key of the sort bucket and one of the category bucket: the recent_read ones |
| `Indexes.ReadKeepsExactIff` | backend/storage/library_indexes.go:222-244 | Moving the recent_read key keeps a sort bucket exact exactly when the book has an owner or the key does not change |
| `Indexes.ReadKeySame` | backend/storage/library_indexes.go:222-244 | The recent_read key stays exactly when the clamped time of the last reading does |
| `Indexes.ShelfEntry` | backend/storage/book_queries.go:25-55 | Every key under a query prefix is the row of a book on that shelf |
| `Indexes.ShelfEntryOf` | backend/storage/book_queries.go:25-55 | Every book on a shelf has its row under the query prefix |
| `ByteOrder.BeforeJoined` | backend/storage/db.go:641-643 | Byte order of NUL-joined keys is the order of the pairs, if the first parts have no NUL |
| `ByteOrder.SortedUnique` | backend/storage/book_queries.go:66-106 | A set of keys has one ascending order, so a cursor's order is determined |
| `ByteOrder.PrefixContiguous` | backend/storage/book_queries.go:66-106 | Keys with a common prefix are contiguous, so a scan may stop at the first key without it |
| `Clock.InvertedOrder` | backend/storage/db.go:632-639 | The 19-digit inverted timestamp reverses the order of times, clamped at zero |
| `Clock.TimeKeyOrder` | backend/storage/db.go:1417-1423 | Nineteen digits order like the numbers they write |
| `Clock.InvertedTimestampIs` | backend/storage/db.go:632-639 | The key is 19 decimal digits that write the distance to the end of the range, with times before 1970 as 1970 |
| `Library.NormalizeCategoryIs` | backend/storage/db.go:1895-1904 | The stored category is the one text without white space at its ends that the name is around, and none exactly for a missing or blank name |
| `Library.CategoryOfIs` | backend/storage/db.go:776-781 | A book's category is its stored name without the white space around it, and empty for none |
| `Library.SortNamed` | backend/storage/db.go:604-613 | The four supported names stand for themselves, every other for recent_read |
| `Library.ShelfOrders` | backend/storage/db.go:615-639 | The four orders in terms of the records: trimmed lower-case titles and authors ascending, times of creation and of the last reading from the newest on, ties by identifier |
| `Library.KeyLayouts` | backend/storage/db.go:641-708 | The components of each key and what separates them |
| `Library.SearchTextWords` | backend/storage/db.go:839-851 | The searched words of a book are the cleaned words of its title, author, file name, format and category, in that order, and no others |
| `Library.FieldIsSearched` | backend/storage/db.go:839-851 | The search text of a book contains the normal form of each of these five |
| `Library.SortKeyOrder` | backend/storage/db.go:615-643 | Byte order of sort keys is the order of (sort value, identifier) |
| `Library.CategoryKeyOrder` | backend/storage/library_indexes.go:20-30 | The same for keys within one category |
| `Base64.CategoryTagInjective` | backend/storage/library_indexes.go:20-23 | Different categories get different key tags (base64url of UTF-8) |
| `Base64.EncodeInjective` | backend/storage/library_indexes.go:20-23 | Unpadded base64url loses nothing |
| `Base64.Utf8Injective` | backend/storage/library_indexes.go:20-23 | UTF-8 loses nothing |
| `Base64.Utf8CharIs` | backend/storage/library_indexes.go:20-23 | The code of a character has the length and the bits that section 3 of RFC 3629 gives |
| `Base64.SymbolIs` | backend/storage/library_indexes.go:20-23 | The symbols are those of section 5 of RFC 4648 |
| `Base64.GroupIs` | backend/storage/library_indexes.go:20-23 | The four symbols of a group carry the bits of its three bytes, as section 4 of RFC 4648 has it |
| `Base64.Utf8Order` | backend/storage/db.go:615-643 | Byte order of two UTF-8 texts is the order of their code points, so the order of keys here is the order of the stored bytes |
| `Base64.Utf8Prefix` | backend/storage/book_queries.go:66-106 | A key has a prefix exactly when its bytes have the prefix's bytes |
| `Text.NormalizeIdempotent` | backend/storage/db.go:681-685 | Normalising a normal text changes nothing |
| `Text.FieldsOfJoin` | backend/storage/db.go:681-685 | Splitting joined words gives the words back |
| `Text.TrimSpaceIs` | backend/storage/db.go:1895-1904 | Trimming gives the one text without white space at its ends that the given text is around |
| `Text.SpacesAre` | backend/storage/db.go:681-685 | White space is what has the White_Space property of Unicode |
| `Text.FieldsConcat` | backend/storage/db.go:681-685 | The words of two texts with white space between them are the words of both |
| `Text.NormalizeWords` | backend/storage/db.go:681-685 | Normal text is the words of the text in order, in lower case and without NULs, empty ones dropped, with single spaces between |
| `Text.NormalizeFixed` | backend/storage/db.go:681-685 | Lower-case words without NULs with single spaces between them are normal already |
| `Text.NormalizeKeepsWords` | backend/storage/db.go:681-685 | Every word of a text is, cleaned, a word of its normal text |
| `Text.ContainsIs` | backend/storage/book_queries.go:85-87 | A text matches a query exactly when it is some text, the query and some text |
| `Text.GramsOfMatch` | backend/storage/db.go:710-728 | Every 2-gram of a contained query is a gram of the text |
| `Text.BookSearchGrams` | backend/storage/db.go:712-728 | Returns each gram of the normal text once, and nothing else |
| `Text.UniqueNonEmptyStrings` | backend/storage/db.go:1810-1822 | Returns each trimmed, non-empty value once, and nothing else |
| `Shelves.ArrangedCorrect` | backend/storage/book_queries.go:66-106 | The reference shelf holds exactly its books, each once, in order |
| `Shelves.WalkComplete` | backend/storage/book_queries.go:57-126 | Following next cursors from any cursor ends, and the pages together are every match after it, once, in order, whatever the limit |
| `Shelves.WalkFromStart` | backend/storage/book_queries.go:57-126 | From the empty cursor the pages of a shelf are the whole shelf, and those of a search all its matches |
| `Shelves.NextAdvances` | backend/storage/book_queries.go:57-62 | A next cursor takes up exactly where the page stopped |
| `Shelves.Lookahead` | backend/storage/book_queries.go:57-62 | One record beyond the page decides the page and its cursor |
| `Queries.RowsCorrect` | backend/storage/book_queries.go:25-37 | The keys under a query prefix are exactly the shelf's rows, in shelf order |
| `Queries.VisitsRows` | backend/storage/book_queries.go:66-106 | The scan visits exactly the shelf's rows from the cursor's own row on, and then leaves the prefix |
| `Queries.ScanSortedBooks` | backend/storage/book_queries.go:66-106 | The shelf-order plan collects the first matches after the cursor and one lookahead, exactly |
| `Queries.ListBooksBySortedCursor` | backend/storage/book_queries.go:109-126 | The page and next cursor are those of cutting the user's sorted books after the cursor, for every limit, sort and category |
| `Queries.MostSelectiveBookSearchGram` | backend/storage/book_queries.go:128-142 | Picks a gram of the query with the fewest postings, or one with none |
| `Queries.SearchByGram` | backend/storage/book_queries.go:144-232 | The rarest-gram plan returns the same books as the shelf-order plan |
| `Queries.SortCandidates` | backend/storage/book_queries.go:144-232 | Sorting by key keeps exactly the candidates, in key order |
| `Queries.SearchBooks` | backend/storage/book_queries.go:144-232 | For every reachable store, query, cursor, limit, sort and category: the page of filtering the whole shelf by normalised substring after the cursor, whichever plan is picked |
| `Queries.ShelfMembers` | backend/storage/book_queries.go:16-23 | The shelf that listing and search are about holds exactly the user's books whose category is the filter's, white space aside; a blank filter takes those without one, no filter all |
| `Queries.FieldIsFound` | backend/storage/book_queries.go:144-232 | A search for a book's title, author, file name, format or category in full finds the book on the walk from the empty cursor, for every filter it passes, order and limit |
| `Queries.AllGathered` | backend/storage/book_queries.go:144-232 | At the end of one gram's postings every match is a candidate |
| `Queries.NothingPosted` | backend/storage/book_queries.go:144-232 | A gram without postings proves there is no match |
| `Queries.PostingOf` | backend/storage/db.go:860-877 | Every gram of a matching query is posted for the book and counted |
| `ProgressSync.ListProgressUpdatedSince` | backend/storage/db.go:1617-1646 | Exactly the user's records at or after the instant, each once, oldest first |
| `ProgressSync.ListProgress` | backend/storage/db.go:1565-1583 | Exactly the user's records, each once |
| `ProgressSync.SeekReaches` | backend/storage/db.go:1617-1646 | The seek key of an instant is not behind any record at or after it |
| `Migration.RebuildLibraryQueryIndexes` | backend/storage/library_indexes.go:88-104 | From the books alone every bucket comes out exact; on an exact store the sort, category, text, posting, count and backlog buckets come out as they were, the summaries read the same, and are the same map exactly when no entry counts nothing |
| `Migration.SameIndexes` | backend/storage/library_indexes.go:88-104 | The books determine every derived bucket but the choice of canonical copies |
| `Migration.RebuildBookSortIndex` | backend/storage/db.go:905-928 | Rebuilds exact sort and category buckets |
| `Migration.RebuildBookSearchIndex` | backend/storage/db.go:930-945 | Rebuilds an exact text bucket |
| `Migration.RebuildBookSearchGramIndex` | backend/storage/db.go:947-970 | Rebuilds exact postings and counts |
| `Migration.RebuildBookContentIndex` | backend/storage/db.go:972-992 | Rebuilds an exact content bucket |
| `Migration.RebuildLibrarySummaryIndex` | backend/storage/db.go:994-1009 | Rebuilds exact summaries, with entries only for users who own a book |
| `Migration.RebuildMissingBookHashIndex` | backend/storage/library_indexes.go:72-86 | Rebuilds the exact backlog |
| `Backfill.ListBooksMissingHash` | backend/storage/library_indexes.go:108-150 | For any cursor: one page of the backlog in key order, and a next cursor that is empty exactly when nothing is left; a cursor without the prefix lists nothing unless the first key from it on has the prefix |
| `Backfill.PageSplits` | backend/storage/library_indexes.go:108-150 | A page holds the first entries ahead; what is ahead of its cursor is exactly what it did not hold |
| `Backfill.CursorsIncrease` | backend/handlers/legacy_hash_backfill.go:64-100 | Whatever is created, hashed or deleted between listings, the cursors of a walk strictly increase |
| `Backfill.TriedOnce` | backend/handlers/legacy_hash_backfill.go:64-100 | No entry is tried twice in one walk |
| `Backfill.StayingEntryTried` | backend/handlers/legacy_hash_backfill.go:64-100 | An entry present throughout a finished walk is tried |
| `Backfill.WalkEnds` | backend/handlers/legacy_hash_backfill.go:64-100 | A walk over a finite set of entries ends, under any interleaved changes |
| `Backfill.HashFiles` | backend/handlers/legacy_hash_backfill.go:102-133 | Collects exactly the snapshots whose files can be read |
| `Backfill.CommitFills` | backend/storage/library_indexes.go:160-195 | Committing the snapshots fills in exactly the records they were taken of |
| `Backfill.Batch` | backend/handlers/legacy_hash_backfill.go:102-133 | A batch changes exactly the readable records of its page and returns the page's cursor |
| `Backfill.CatchUp` | backend/handlers/legacy_hash_backfill.go:74-88 | A catch-up ends, and exactly the user's records without a hash whose file can be read have the hash of that file; nothing else changes |
| `BackfillRuns.LateCommit` | backend/handlers/legacy_hash_backfill.go:102-133 | Committing the hashes of any records, however the books have changed since: a record gets the hash of the file it names now exactly if it has none, the file could be read, and it is among the records with this owner and file |
| `BackfillRuns.EditsSurvive` | backend/handlers/legacy_hash_backfill.go:102-133 | On any run with any transactions between listing and commit, the commit changes exactly the listed records whose owner and file are still those listed and whose hash is still empty, and gives them that file's hash |
| `CfiSyntax.NumberRoundTrip` | frontend/public/foliate/epubcfi.js:30-34 | Reading the digits of a number gives the number |
| `CfiSyntax.Tokenizer` | frontend/public/foliate/epubcfi.js:18-75 | The tokenizer loop is the machine of module CfiSyntax run over the trimmed text and the sentinel |
| `CfiSyntax.Parser` | frontend/public/foliate/epubcfi.js:79-101 | The parser loop is the token-by-token function of module CfiSyntax, failing exactly where a token needs a step that is not there |
| `CfiSyntax.EscapedOne` | frontend/public/foliate/epubcfi.js:10 | A circumflex stands before exactly the characters that the grammar gives a meaning, as section 2.3 asks |
| `CfiSyntax.TrimBetween` | frontend/public/foliate/epubcfi.js:26 | Trimming drops the white space at both ends and nothing else |
| `CfiSyntax.TrimmedAre` | frontend/public/foliate/epubcfi.js:26 | White space is what ECMAScript trims |
| `CfiSyntax.UnwrapIs` | frontend/public/foliate/epubcfi.js:9-13 | Unwrapping gives what is between the parentheses exactly when no line ends in it |
| `CfiExample.Written` | frontend/public/foliate/epubcfi.js:18-132 | A point and a range with every construct of the grammar, written out: what is printed, and what it parses to |
| `CfiSyntax.FalsyIsZero` | frontend/public/foliate/epubcfi.js:121 | Of temporal offsets of digits with one dot at most, exactly those of only zeros are not printed |
| `CfiExample.NotWritten` | frontend/public/foliate/epubcfi.js:115-126 | An offset at an even index and a temporal offset of zero are not printed; an offset of zero is |
| `CfiReading.FeedEscaped` | frontend/public/foliate/epubcfi.js:50-59 | Inside brackets an escaped text reads as the text, whatever its characters |
| `CfiReading.BracketPiece` | frontend/public/foliate/epubcfi.js:50-70 | A printed bracket reads as its texts and its side bias, and nothing else |
| `CfiReading.PartPiece` | frontend/public/foliate/epubcfi.js:115-126 | A printed step reads as the tokens of its parts, after any text outside brackets |
| `CfiRoundTrip.ParsePart` | frontend/public/foliate/epubcfi.js:79-101 | The tokens of a printed step parse to its canonical form |
| `CfiRoundTrip.ParseOfPrinted` | frontend/public/foliate/epubcfi.js:18-132 | With plain side biases, parsing a printed point or range gives its canonical form, for arbitrary ids and text assertions, with or without line terminators in them |
| `CfiRoundTrip.RoundTrip` | frontend/public/foliate/epubcfi.js:18-132 | With plain side biases, printing and parsing give a CFI back exactly when it is well formed |
| `CfiSides.ComesBackIff` | frontend/public/foliate/epubcfi.js:18-132 | With any side biases, for CFIs of one step, that print no side bias twice, or whose side biases leave no escape pending outside of brackets: a CFI comes back exactly when it is well formed and no side bias has one of the four characters that the tokenizer acts on inside brackets |
| `CfiSides.ReadsBackIff` | frontend/public/foliate/epubcfi.js:18-132 | For the same CFIs: one reads back as its canonical form exactly when its side biases are plain |
| `CfiMarks.ClosedIsLost` | frontend/public/foliate/epubcfi.js:60-113 | With a side bias that is not plain, and none that swallows its bracket, what is read back has other sides, wherever and however often the side bias is printed |
| `CfiMarks.RawTokens` | frontend/public/foliate/epubcfi.js:26-75 | The tokens of a printed CFI whose side biases close: at each place the tokens the tokenizer makes of the side bias alone |
| `CfiMarks.RemainsShort` | frontend/public/foliate/epubcfi.js:64-73 | No token read from a side bias that is not plain sets that side bias |
| `CfiMarks.CfiMarked` | frontend/public/foliate/epubcfi.js:79-113 | The sides of a parsed CFI are, step by step, the last ones its tokens set before the next step |
| `CfiMarks.NoCaretCloses` | frontend/public/foliate/epubcfi.js:26-75 | A side bias without a caret never swallows its bracket |
| `CfiCarets.PartTakes` | frontend/public/foliate/epubcfi.js:36-75 | Reading a printed step gives values with no more carets than the step has, and fewer where its side bias swallows a bracket |
| `CfiCarets.CfiTakes` | frontend/public/foliate/epubcfi.js:79-113 | A parsed CFI has no more carets in its ids, texts and side biases than its tokens |
| `CfiCarets.SwallowedIsLost` | frontend/public/foliate/epubcfi.js:18-132 | With a side bias that swallows its bracket, and none that leaves an escape pending outside of brackets, a CFI reads back neither as itself nor as any other with its carets, however often a side bias is printed |
| `CfiOneStep.LooseIsLost` | frontend/public/foliate/epubcfi.js:18-132 | A step that prints a side bias twice, with an escape pending after the first, never reads back as a step with that side bias, whatever its id and texts |
| `CfiSides.ReadsWrong` | frontend/public/foliate/epubcfi.js:60-70 | From the first side bias that is not plain on, the text read weighs less than its CFI, or a side has been read, or is being read, that is not the CFI's |
| `CfiSides.CaretIsLost` | frontend/public/foliate/epubcfi.js:116-126 | A well-formed CFI whose side bias has a caret, and what comes back instead |
| `CfiSides.ParsedSideIsCut` | frontend/public/foliate/epubcfi.js:60-70 | A side bias with a bracket, as a parse gives it, that printing and parsing cut off |
| `CfiWeights.FeedWeighs` | frontend/public/foliate/epubcfi.js:26-75 | No text gives tokens that weigh more than it does |
| `CfiWeights.CfiAccounts` | frontend/public/foliate/epubcfi.js:79-113 | A parsed CFI weighs no more than its tokens; if as much, its side biases are exactly those read, in order |
| `CfiWeights.CfiGrounded` | frontend/public/foliate/epubcfi.js:79-113 | Every side bias that a parse gives stands beside an id or a text assertion |
| `CfiWeights.WeightPart` | frontend/public/foliate/epubcfi.js:115-126 | A printed step weighs what its canonical form weighs |
| `CfiRoundTrip.CanonIsStable` | frontend/public/foliate/epubcfi.js:18-132 | With plain side biases, the canonical form is well formed: what was read back once reads back as itself from then on |
| `CfiRoundTrip.TokensOfPrinted` | frontend/public/foliate/epubcfi.js:9-24 | Wrapping, unwrapping and trimming add and lose no token |
| `CfiRange.CollapseUndoesBuild` | frontend/public/foliate/epubcfi.js:134-161 | Collapsing a built range gives the first point at its start always, and the second at its end exactly when both agree on the non-local paths and on the shared steps |
| `CfiRange.SharedIsAll` | frontend/public/foliate/epubcfi.js:146-157 | The steps that go to the parent are all the leading ones with the same numbers and no offset other than zero on either side |
| `CfiRange.PositionsComeBack` | frontend/public/foliate/epubcfi.js:134-161 | For positions with equal ids on the shared steps and last offsets both there or both missing, both ends come back |
| `CfiRange.ZeroOffsetIsShared` | frontend/public/foliate/epubcfi.js:151 | A point without an offset comes back with the start's offset of zero, because zero counts as no offset when steps are shared |
| `CfiRange.BuiltTextCollapses` | frontend/public/foliate/epubcfi.js:134-161 | The same through the text that buildRange returns and collapse parses |
| `CfiRange.BuildRange` | frontend/public/foliate/epubcfi.js:139-161 | The loop splits the local paths at the end of the shared steps |
| `CfiRange.ComparePoints` | frontend/public/foliate/epubcfi.js:169-185 | The nested loops compute the recursive order, path by path and step by step |
| `CfiRange.Compare` | frontend/public/foliate/epubcfi.js:163-186 | Ranges compare by their starts, then by their ends |
| `CfiRange.CompareAntisymmetric` | frontend/public/foliate/epubcfi.js:163-186 | Swapping the arguments flips the sign, for any points and ranges |
| `CfiRange.CompareTransitive` | frontend/public/foliate/epubcfi.js:163-186 | For points and ranges the order is transitive, and strict as soon as one comparison is, if paths with the same steps, where two of them are compared, both end with an offset or both without |
| `CfiRange.StepsStrictlyTransitive` | frontend/public/foliate/epubcfi.js:169-182 | Strictly before is transitive on steps, whatever the offsets |
| `CfiRange.FirstDifferenceDecides` | frontend/public/foliate/epubcfi.js:169-185 | The first path on which two points differ decides, whatever follows |
| `CfiRange.TieIsExact` | frontend/public/foliate/epubcfi.js:169-182 | Two paths that tie compare alike with every path exactly when both end with an offset or neither does |
| `CfiRange.PathsTieIsExact` | frontend/public/foliate/epubcfi.js:169-185 | The same for two points and any point |
| `CfiRange.TieIsEqualityIff` | frontend/public/foliate/epubcfi.js:163-186 | Two points or ranges that tie compare alike with every other exactly when, path by path at both ends, both end with an offset or neither does |
| `CfiRange.MissingOffsetTies` | frontend/public/foliate/epubcfi.js:178-182 | Three concrete CFIs, the same but for the offset, that compare 0, 0 and 1 |
| `CfiRange.StrictCircle` | frontend/public/foliate/epubcfi.js:169-185 | Three concrete CFIs with an indirection each of which is strictly before the next, in a circle |
| `CfiDom.SlotsIndex` | frontend/public/foliate/epubcfi.js:203-232 | Elements are at the even indices and texts at the odd ones, a chunk holds exactly the texts between two elements in order, the virtual elements are 0 and n + 2; it throws exactly when there is no element and no text |
| `CfiDom.IndexChildNodes` | frontend/public/foliate/epubcfi.js:208-232 | The reduction and the additions at both ends give those slots |
| `CfiDom.NodeToParts` | frontend/public/foliate/epubcfi.js:260-286 | The walk up the parents, with the offset loop over a chunk, computes the steps of the node |
| `CfiDom.PartsToNode` | frontend/public/foliate/epubcfi.js:234-258 | The walk down the steps, with the id first and the offset loop over a chunk last, computes the location that the lemmas of CfiWalks and CfiNodes describe |
| `CfiNodes.PartsAreSteps` | frontend/public/foliate/epubcfi.js:260-286 | nodeToParts never throws on an element or a text, and its indices are those of the standard: twice the elements up to it, or the odd number between |
| `CfiNodes.IgnoredHasParentsSteps` | frontend/public/foliate/epubcfi.js:260-286 | A comment has its parent's steps; nodeToParts throws on one exactly when no element or text is beside it |
| `CfiNodes.SlotOf` | frontend/public/foliate/epubcfi.js:266-268 | The first slot that holds a child is the one of its index |
| `CfiNodes.ElementComesBack` | frontend/public/foliate/epubcfi.js:234-286 | partsToNode of an element's steps is the element: through its id with offset zero, or through its indices with its own offset |
| `CfiNodes.TextComesBack` | frontend/public/foliate/epubcfi.js:234-286 | partsToNode of a text's steps is the same character position of its chunk, and the same text and offset whenever the offset is above zero |
| `CfiWalks.WhereStepsLead` | frontend/public/foliate/epubcfi.js:234-258 | For any steps to an element, one more index and any steps after it, when no id decides: before or after the element, its first or last child, a node, a chunk, nowhere, or an exception, from the children alone |
| `CfiWalks.WhereNoNumberLeads` | frontend/public/foliate/epubcfi.js:240-241 | An index that is not a number leads nowhere |
| `CfiWalks.WhereOffsetLeads` | frontend/public/foliate/epubcfi.js:250-257 | An offset in a chunk is in the first text it does not exceed, counted from its start; past the end and without a number there is no result |
| `CfiWalks.WhereIdLeads` | frontend/public/foliate/epubcfi.js:235-239 | If an element has the last step's id, the location is the start of the first such element in document order, wherever the indices lead |
| `CfiOrder.CompareFollowsDocument` | frontend/public/foliate/epubcfi.js:163-286 | For any two places of a document, compare on their CFIs has the sign of their distance in document order, and is zero exactly for the same place |
| `CfiOrder.RangesFollowDocument` | frontend/public/foliate/epubcfi.js:163-167 | Of ranges between places the one that starts first in the document comes first, and of those with the same start the one that ends first |
| `CfiOrder.PlaceSurvivesPrinting` | frontend/public/foliate/epubcfi.js:288-331 | Printing a place's CFI and parsing it leads to the same location as its steps |
| `SingleFlight.RunsAreSound` | backend/services/tts_cache.go:412-479 | The invariant of calls, registry and callers holds after every interleaving of join, create, timeout, finish, close, receive and abandon steps |
| `SingleFlight.OneCallPerKey` | backend/services/tts_cache.go:412-459 | On every run two calls for one key are never both at work with a live context |
| `SingleFlight.CounterIsWaiters` | backend/services/tts_cache.go:412-479 | On every run an unfinished call's counter is the number of callers waiting for it |
| `SingleFlight.WaitedCallsAreNotCancelled` | backend/services/tts_cache.go:461-479 | On every run no departure has cancelled a call somebody waits for; while at work it is registered or timed out |
| `SingleFlight.DesertedCallsAreCancelled` | backend/services/tts_cache.go:461-479 | On every run a call that everybody left is cancelled and can no longer be joined |
| `SingleFlight.CleanupSparesOthers` | backend/services/tts_cache.go:430-439 | The cleanup of a call, and the departure of its last caller, never unregister another call |
| `SingleFlight.RegisteredUntil` | backend/services/tts_cache.go:412-479 | On every run a registered call stays registered exactly until its own finish, the departure of the one caller it has left, or an arrival for its key after its context ended |
| `SingleFlight.ArrivalReplacesNoLiveCall` | backend/services/tts_cache.go:412-428 | An arrival waits for a live call of its key, and starts one exactly when the key has no live call at work |
| `SingleFlight.AnswersAgree` | backend/services/tts_cache.go:461-468 | All callers answered for one call got the same outcome for the same key |
| `SingleFlight.AnswersAreOutcomes` | backend/services/tts_cache.go:412-479 | On every run whoever was answered had asked for that key and got the outcome its call finished with, and a context is live exactly until it times out, is released or is deserted |
| `SingleFlight.NobodyIsHeldUp` | backend/services/tts_cache.go:412-479 | On every run a waiting caller can leave at any time and is answered as soon as its call is closed, a call at work can time out or finish with anything, and a new caller can come |
| `EndpointRefresh.RunRefines` | backend/services/endpoint.go:70-103 | Every run of the endpoint refresh is a run of that protocol ending in the same state |
| `EndpointRefresh.EnabledIff` | backend/services/endpoint.go:70-103 | A refresh step can be taken exactly when the protocol's can |
| `EndpointRefresh.OneRefresh` | backend/services/endpoint.go:70-103 | On every run at most one refresh is at work with a live context |
| `EndpointRefresh.CurrentUntil` | backend/services/endpoint.go:70-103 | On every run the current refresh stays current exactly until its finish, the departure of the one caller it has left, or an arrival after its context ended |
| `EndpointRefresh.RefreshSafety` | backend/services/endpoint.go:70-103 | On every run somebody who waits waits for a refresh no departure cancelled, and the counter of a refresh at work is the number of those who wait |
| `Admission.RunsAreBalanced` | backend/services/tts_cache.go:509-533 | After every interleaving the channels hold a token for each client inside and for each at work |
| `Admission.Bounded` | backend/services/tts_cache.go:509-533 | On every run at most MaxConcurrent clients are at work and at most MaxConcurrent + MaxQueued inside, and a client is refused exactly when that many are |
| `Admission.NobodyIsStuck` | backend/services/tts_cache.go:509-533 | On every run giving a token back never blocks, and a waiting client can go on exactly when fewer than the limit are at work |
| `Admission.QueueDepth` | backend/services/tts_cache.go:174-191 | With any steps between the two readings, the metrics' queue depth is the clients inside at the second over those at work at the first, cut off at zero exactly when fewer are inside than were at work; it never exceeds the capacity and is off by no more than the steps in between |
| `Admission.CutOffActs` | backend/services/tts_cache.go:174-191 | A run on which the difference of the two readings is below zero |
| `AudioCache.Cache.constructor` | backend/services/tts_cache.go:267-282 | An empty cache with the defaults for settings that are not positive |
| `AudioCache.Cache.Get` | backend/services/tts_cache.go:314-331 | A hit is the last accepted, unexpired write of the key and becomes the most recent; an expired entry goes; nothing else changes |
| `AudioCache.Cache.Set` | backend/services/tts_cache.go:333-363 | Empty and oversized data change nothing; otherwise the key holds the data, comes first, and what goes is the longest-unused part of the list that does not fit |
| `AudioCache.Cache.RemoveElement` | backend/services/tts_cache.go:365-370 | Map, list and byte count lose exactly the entry |
| `AudioCache.Cache.EvictOverflow` | backend/services/tts_cache.go:356-362 | Evicts from the back until both limits hold, no more than needed, and only what was used less recently than all that stays |
| `AudioCache.FittingIsLongest` | backend/services/tts_cache.go:356-362 | What eviction leaves meets both limits and is the longest front part that does |
| `DiskCache.Cleanup` | backend/services/tts_cache.go:594-646 | Removes the audio files older than the time to live and then the shortest stretch of oldest ones; what is kept is the rest, and meets both limits |
| `DiskCache.Divided` | backend/services/tts_cache.go:610-624 | The pass divides the audio files of the directory, each as often as it is listed, by whether they are older than the time to live |
| `DiskCache.SortByTime` | backend/services/tts_cache.go:628-631 | Orders the files by age and loses none |
| `DiskCache.OldestGo` | backend/services/tts_cache.go:633-645 | Whatever goes for lack of room is no newer than whatever stays |
| `RawText.KF8.LoadRaw` | frontend/public/foliate/mobi.js:1116-1140 | The result is the slice of the whole text, from whichever end; head and tail stay made of whole records, only grow, and every record asked for exists |
| `RawText.SplitRecords` | frontend/public/foliate/mobi.js:1116-1140 | The records before and after any point are the text |
| `Huffcdic.Read32Bits` | frontend/public/foliate/mobi.js:255-263 | The 32 bits from a bit position on, zero past the end |
| `Huffcdic.FiveBytes` | frontend/public/foliate/mobi.js:255-263 | Five bytes shifted and cut are those 32 bits, at every alignment |
| `Huffcdic.Decompressor.Decompress` | frontend/public/foliate/mobi.js:301-325 | With its dictionary overwritten in place, it returns the one expansion of the text, code by code through compressed entries, by the dictionary as loaded, for any sequence of calls; every cached entry is its expansion, what was cached stays, and it ends |
| `Huffcdic.Decompressor.Lookup` | frontend/public/foliate/mobi.js:314-321 | The value of an entry that was loaded decompressed, and the expansion of the value of any other, whatever was cached before; an exception outside the dictionary |
| `Huffcdic.Decompressor.ReadCode` | frontend/public/foliate/mobi.js:305-314 | The code at a bit position, or the exception where the tables do not have it |
| `Huffcdic.CodeFromBits` | frontend/public/foliate/mobi.js:304-314 | A short code is decided by the eight bits at the position; a long one has the least length whose bits reach the table's minimum; the code is the table's value less its own bits |
| `Huffcdic.CodeIsMissing` | frontend/public/foliate/mobi.js:304-314 | There is no code exactly when table1 has none and no length from its own on up to 32 has bits up to its minimum |
| `Huffcdic.ExpansionIsUnique` | frontend/public/foliate/mobi.js:301-325 | A text has at most one expansion, with any depth of entries in entries |
| `Huffcdic.ReadIsMeaning` | frontend/public/foliate/mobi.js:301-325 | Reading code by code, following compressed entries, gives the expansion by ranks |
| `Huffcdic.EntryIsExpanded` | frontend/public/foliate/mobi.js:314-321 | A compressed entry means the expansion of its value, a decompressed one its value |
| `Huffcdic.BelowTop` | frontend/public/foliate/mobi.js:301-325 | Any text meets the bound that decompression asks for, so it can be called on any input |
| `Huffcdic.MeaningIsUnique` | frontend/public/foliate/mobi.js:301-325 | The expansion is the dictionary's: it does not depend on the ranking that shows it acyclic |
| `RateLimiter.Limiter.constructor` | backend/middleware/rate_limiter.go:46-57 | An empty limiter with the default cap and cleanup interval, and nothing granted |
| `RateLimiter.Limiter.Allow` | backend/middleware/rate_limiter.go:74-101 | In a current window grants exactly while fewer than maxReqs were granted in it, otherwise starts a window unless the visitor cap is reached; keeps the log of granted requests split into separate windows, and never exceeds the cap |
| `RateLimiter.Limiter.CleanupExpired` | backend/middleware/rate_limiter.go:59-73 | Removes exactly the expired visitors, once per interval |
| `RateLimiter.Limiter.RateBound` | backend/middleware/rate_limiter.go:74-101 | After any requests, a key has at most twice the limit granted in any closed interval of the window's length |
| `RateLimiter.TwoReach` | backend/middleware/rate_limiter.go:74-101 | Windows that lie more than a window apart put at most two in reach of such an interval |
| `RateLimiter.CleanupChangesNothing` | backend/middleware/rate_limiter.go:59-101 | Without a visitor cap, any pattern of cleanups gives the decisions of no cleanup at all |
| `RateLimiter.LimitKept` | backend/middleware/rate_limiter.go:74-101 | On all runs, with any cleanups and any visitor cap, every window of every key has at most maxReqs granted requests if and only if maxReqs is at least one |
| `RateLimiter.RunKeepsWindows` | backend/middleware/rate_limiter.go:59-101 | On every run the windows of a key stay separate and within the limit, and hold exactly the times it was granted |
| `RateLimiter.FirstIsGranted` | backend/middleware/rate_limiter.go:74-101 | With a limit below one the first request is granted, and a second one only after the window |
| `Segmenter.MarkSegments` | frontend/public/foliate/tts.js:32-49 | Exactly the segments that count, of words only those like words, are taken, in order; each is marked by run and offset pairs that map back to its start and end and lie inside their runs; no run is asked for beyond the last, with empty runs and skipped segments |
| `Segmenter.Scan` | frontend/public/foliate/tts.js:37-42 | Taking in runs stops inside the run that holds the place |
| `Segmenter.ListIterator.Next` | frontend/public/foliate/tts.js:337-352 | The element after the current one of everything the generator gives, pulled only if needed |
| `Segmenter.ListIterator.PeekAt` | frontend/public/foliate/tts.js:353-367 | The element at a distance; the place stays |
| `Segmenter.ListIterator.Find` | frontend/public/foliate/tts.js:371-386 | The first element of the whole list that meets the condition, wherever the place was |
| `Segmenter.ListIterator.Prev` | frontend/public/foliate/tts.js:330-336 | The element before the current one |
| `Segmenter.ListIterator.First` | frontend/public/foliate/tts.js:323-329 | The first element, but only once something has been pulled |

## Left out

- Replay.Run: progress is saved by a user with a non-empty identifier, which every signed-in caller has; for an
  empty one SaveProgressIfCurrent says exactly when the buckets stay exact.
- Store.DB.CreateBook: needs an identifier that no stored book has; the handlers generate a fresh UUID.
- Store.DB.AddBookToContentIndex: for a record that is not a valid book only the backlog is described.
- Migration.RebuildBookContentIndex: which copy becomes canonical is a choice of iteration order, so the
  rebuilt bucket is proved exact, not equal to the old one.
- The threshold by which SearchBooks picks its plan (`Queries.IsBroad`) is computed as in the code, but only the
  case without grams is stated: both plans are proved to return the same page.
- ProgressSync.ListProgressUpdatedSince: instants outside the range of the 19-digit key are clamped there,
  so "oldest first" is up to that clamping.
- RawText.KF8.LoadRaw: start and end lie in the text, and a known length is the sum of the record lengths;
  calls do not overlap in time.
- Huffcdic.Decompressor.Decompress: the dictionary is acyclic and codes found in table1 have a length above
  zero; otherwise the decompressor of mobi.js may not end.
- RateLimiter.Limiter.Allow: the clock does not go back.
- RateLimiter.Limiter.constructor: the window is not negative, as every caller passes it.
- Segmenter.MarkSegments: segments are ordered, do not overlap, are not empty and lie in the text, as
  Intl.Segmenter gives them; marks are collected in one list instead of yielded one by one.
- CfiRoundTrip.RoundTrip: takes plain side biases; CfiSides.ComesBackIff has them in the condition.
- CfiRoundTrip.ParseOfPrinted: takes plain side biases; CfiSides.ReadsBackIff has them in the condition.
- CfiRoundTrip.CanonIsStable: takes plain side biases; with others it fails (CfiSides.ParsedSideIsCut).
- CfiSides.ComesBackIff: leaves open a CFI of several steps in which one step has an id, texts and a side bias,
  which is then printed twice, and a side bias, like `a]^b`, leaves an escape pending outside of brackets. The
  second print is text to spare and the escape a caret to spare, so neither weighing nor counting carets decides
  whether such a side bias could be read from other steps. Temporal and spatial numbers are kept as their
  decimal text.
- CfiSyntax.ParseInt: numbers are unbounded, where JavaScript rounds above 2 to the 53rd.
- CfiDom.LengthOf: text lengths and offsets count code points, where JavaScript counts UTF-16 units.
- CfiSides.ReadsBackIff: leaves open the same.
- CfiRange.PositionsComeBack: states one sufficient condition; the exact one is CollapseUndoesBuild's.
- CfiNodes.ElementComesBack: ids are unique in the document.
- CfiNodes.PartsAreSteps: the document element itself has no steps.
- DiskCache.Cleanup: removing a file succeeds; sort order among files of the same time is any.
- AudioCache.Cache.Get: returns the data, where ttsAudioCache.get returns a copy of it.
- SingleFlight.AnswersAgree: says nothing of what the outcome is; synthesis itself is not part of the model.
- Users, sessions, bookmarks, AssignUnownedData, DeleteUser and PurgeUser: not modelled; the last can leave
  time-index entries behind after an owner changed, so runs here have no purge.
- GetBook, ListBooks, offset pagination, ListProgressForBooks: simple reads of the modelled buckets.
- Base64 and UTF-8 decoding, JSON, SHA-256 and bbolt itself: identity, injective encodings and maps.
- Overflow of Go's 64-bit integers in limits and counters.
- The background pass of the backfill worker that restarts on a timer, and its stop channel: its walk is
  covered for any prefix by the walk lemmas of Backfill, the timing is not.
- Logging, metrics histograms and the telemetry counters of the speech service.
- readDiskTTSCache, writeDiskTTSCache and the endpoint's token parsing and fallback to an older endpoint.
- NodeFilter handling, toRange's DOM ranges and Calibre positions in epubcfi.js; node identity is the
  address of a node, and getElementById is a search in document order.
- PalmDOC decompression, records with trailing entries and index tables in mobi.js.
- HTTP handlers, cookies, the user interface, the paginator and the other readers.
