/** The durable backlog of books without a content hash, its paged listing
    (backend/storage/library_indexes.go) and the worker that walks it
    (backend/handlers/legacy_hash_backfill.go). */
module Backfill {
  import opened Wrappers
  import opened ByteOrder
  import opened Text
  import opened Library
  import opened Indexes
  import opened Store

  const LEGACY_HASH_BATCH_SIZE: nat := 16

  /** Backlog keys of one owner, or of all owners. */
  function BacklogPrefix(user: Option<string>): string {
    if user.Some? then user.value + NUL else ""
  }

  /** The entries a listing still has to visit. */
  function Ahead(backlog: set<string>, prefix: string, cursor: string): set<string> {
    set k | k in backlog && prefix <= k && (cursor == "" || Before(cursor, k))
  }

  /** One bounded page of the backlog and the cursor to continue from. */
  function BacklogPage(backlog: set<string>, prefix: string, cursor: string, limit: nat): (page: (seq<string>, string))
    requires limit > 0
  {
    var ahead := Ascending(Ahead(backlog, prefix, cursor));
    if |ahead| <= limit then (ahead, "") else (ahead[..limit], ahead[limit - 1])
  }

  lemma SplitSorted(s: seq<string>, n: nat)
    requires Sorted(s) && n <= |s|
    ensures Sorted(s[..n]) && Sorted(s[n..])
    ensures forall x <- s[..n], y <- s[n..] :: Before(x, y)
    ensures forall k :: k in s <==> k in s[..n] || k in s[n..]
  {
    assert s == s[..n] + s[n..];
    forall x, y | x in s[..n] && y in s[n..] ensures Before(x, y) {
      var i :| 0 <= i < n && s[..n][i] == x;
      var j :| 0 <= j < |s| - n && s[n..][j] == y;
      assert s[i] == x && s[n + j] == y;
    }
  }

  /** A page holds the first entries ahead; what stays ahead of the next cursor is
      exactly what the page did not hold. */
  lemma PageSplits(backlog: set<string>, prefix: string, cursor: string, limit: nat)
    requires limit > 0 && "" !in backlog
    ensures var (page, next) := BacklogPage(backlog, prefix, cursor, limit);
            && (forall k <- page :: k in Ahead(backlog, prefix, cursor))
            && (next == "" ==> forall k <- Ahead(backlog, prefix, cursor) :: k in page)
            && (next != "" ==>
                  && next in Ahead(backlog, prefix, cursor) && |page| == limit && next == page[limit - 1]
                  && (cursor == "" || Before(cursor, next))
                  && (forall k <- page :: k == next || Before(k, next))
                  && Ahead(backlog, prefix, next) == Ahead(backlog, prefix, cursor) - (set k | k in page)
                  && Ahead(backlog, prefix, next) < Ahead(backlog, prefix, cursor))
  {
    hide Before;
    var ahead := Ascending(Ahead(backlog, prefix, cursor));
    var (page, next) := BacklogPage(backlog, prefix, cursor, limit);
    if |ahead| > limit {
      SplitSorted(ahead, limit);
      assert next == page[limit - 1] && next in page && next in ahead;
      forall k | k in page ensures k == next || Before(k, next) {
        var i :| 0 <= i < limit && page[i] == k;
        assert ahead[i] == k;
      }
      forall k ensures k in Ahead(backlog, prefix, next) <==> k in Ahead(backlog, prefix, cursor) && k !in page {
        if k in Ahead(backlog, prefix, next) && cursor != "" { BeforeTransitive(cursor, next, k); }
        if k in page && k != next { BeforeAsymmetric(k, next); }
        BeforeIrreflexive(next);
      }
    }
  }

  // ---- the listing ----

  /** Records of the backlog entries, in cursor order. */
  ghost function RecordsOf(books: Books, backlog: Bucket, keys: seq<string>): seq<Book>
    requires Readable(books, backlog, keys)
  {
    seq(|keys|, i requires 0 <= i < |keys| => RecordOf(books, backlog, keys, i))
  }

  ghost function RecordOf(books: Books, backlog: Bucket, keys: seq<string>, i: nat): Book
    requires Readable(books, backlog, keys) && i < |keys|
  {
    assert keys[i] in keys;
    books[backlog[keys[i]]]
  }

  ghost predicate Readable(books: Books, backlog: Bucket, keys: seq<string>) {
    forall k <- keys :: k in backlog && backlog[k] in books
  }

  /** A backlog entry names a stored book without a hash, and carries its owner. */
  lemma BacklogEntry(db: DB, k: string)
    requires db.Exact() && k in db.missingHash
    ensures k != "" && db.missingHash[k] in db.books
    ensures var b := db.books[db.missingHash[k]];
            b.id == db.missingHash[k] && b.contentHash == "" && k == SearchKey(b.userID, b.id)
  {
    hide IsLowering, CountsExact, ContentExact, SummaryExact, ProgressKeyed, TimeExact, IsOwner;
    var id :| id in db.books && k in Keys(db.lower, MissingHash, db.books[id]);
  }

  lemma BacklogEntryOf(db: DB, id: string)
    requires db.Exact() && id in db.books && db.books[id].contentHash == ""
    ensures var k := SearchKey(db.books[id].userID, id); k in db.missingHash && db.missingHash[k] == id
  {
    hide IsLowering, Derived, CountsExact, ContentExact, SummaryExact, ProgressKeyed, TimeExact, SearchKey;
    assert IsBook(db.books[id]);
    DerivedEntry(db.lower, MissingHash, db.books, db.missingHash, id, SearchKey(db.books[id].userID, id));
  }

  /** The records of one backlog page, and the cursor that continues it. */
  ghost predicate ListsBacklog(db: DB, prefix: string, cursor: string, limit: nat, books: seq<Book>, next: string)
    requires limit > 0
    reads db
  {
    var page := BacklogPage(db.missingHash.Keys, prefix, cursor, limit);
    && Readable(db.books, db.missingHash, page.0)
    && books == RecordsOf(db.books, db.missingHash, page.0) && next == page.1
  }

  /** Whether a scan from the cursor starts among the keys of this prefix: it does without
      a cursor, with one that carries the prefix, and with one whose next key does. */
  ghost predicate Lands(backlog: set<string>, prefix: string, cursor: string) {
    || cursor == ""
    || prefix <= cursor
    || (SeekFrom(backlog, cursor) != [] && prefix <= SeekFrom(backlog, cursor)[0])
  }

  /** One page of the backlog: its records in key order, and a cursor that is empty
      exactly when nothing is left. A cursor that does not land lists nothing. */
  method ListBooksMissingHash(db: DB, user: Option<string>, cursor: string, limit: int)
    returns (books: seq<Book>, next: string)
    requires db.Exact()
    ensures limit > 0 && Lands(db.missingHash.Keys, BacklogPrefix(user), cursor) ==>
              ListsBacklog(db, BacklogPrefix(user), cursor, limit, books, next)
    ensures limit <= 0 || !Lands(db.missingHash.Keys, BacklogPrefix(user), cursor) ==> books == [] && next == ""
  {
    hide ExactBuckets, Before, Sorted, ListsBacklog, Ahead, IsScan, Holds, Readable, BacklogPrefix, Ascending, SeekFrom;
    books, next := [], "";
    if limit <= 0 { return; }
    var prefix := BacklogPrefix(user);
    var start := if cursor != "" then cursor else prefix;
    var visited := SeekFrom(db.missingHash.Keys, start);
    ghost var lands := Lands(db.missingHash.Keys, prefix, cursor);
    ghost var ahead := if lands then Ascending(Ahead(db.missingHash.Keys, prefix, cursor)) else [];
    ghost var skip := if lands && visited != [] && visited[0] == cursor then 1 else 0;
    EntriesReadable(db, prefix, cursor);
    if lands {
      VisitsAhead(db.missingHash.Keys, prefix, cursor, start);
    } else {
      VisitsNothing(visited, prefix, cursor);
    }
    HoldsNothing(db, ahead);
    var i := 0;
    ScanAt(visited, ahead, skip, prefix, cursor, 0);
    while i < |visited| && prefix <= visited[i]
      invariant 0 <= i <= |ahead| + skip
      invariant (i < |visited| && prefix <= visited[i]) <==> i < |ahead| + skip
      invariant |books| == (if i < skip then 0 else i - skip) <= limit
      invariant Holds(db, ahead, books, next)
    {
      ScanAt(visited, ahead, skip, prefix, cursor, i);
      ScanAt(visited, ahead, skip, prefix, cursor, i + 1);
      var key := visited[i];
      if key == cursor {
        i := i + 1;
        continue;
      }
      if |books| == limit {
        PageFull(db, prefix, cursor, limit, books, next);
        return;
      }
      HoldsOneMore(db, ahead, books, next);
      next := key;
      BacklogEntry(db, key);
      i := i + 1;
      var id := db.missingHash[key];
      if id !in db.books { continue; }
      var book := db.books[id];
      if book.contentHash == "" {
        books := books + [book];
      }
    }
    if lands { PageFull(db, prefix, cursor, limit, books, next); }
    next := "";
  }

  /** The listing so far: the records of the first entries ahead, and the last key. */
  ghost predicate Holds(db: DB, ahead: seq<string>, books: seq<Book>, next: string)
    reads db
  {
    && Readable(db.books, db.missingHash, ahead) && |books| <= |ahead|
    && (forall j :: 0 <= j < |books| ==> books[j] == RecordOf(db.books, db.missingHash, ahead, j))
    && next == (if |books| == 0 then "" else ahead[|books| - 1])
  }

  lemma HoldsNothing(db: DB, ahead: seq<string>)
    requires Readable(db.books, db.missingHash, ahead)
    ensures Holds(db, ahead, [], "")
  {
  }

  lemma HoldsOneMore(db: DB, ahead: seq<string>, books: seq<Book>, next: string)
    requires Holds(db, ahead, books, next) && |books| < |ahead|
    ensures var key := ahead[|books|];
            && key in db.missingHash && db.missingHash[key] in db.books
            && Holds(db, ahead, books + [db.books[db.missingHash[key]]], key)
  {
    assert ahead[|books|] in ahead;
  }

  /** The keys a scan visits: perhaps the cursor's own entry, then the entries ahead. */
  ghost predicate IsScan(visited: seq<string>, ahead: seq<string>, skip: nat, prefix: string, cursor: string) {
    && skip <= 1 && |visited| >= |ahead| + skip
    && (skip == 1 ==> visited[0] == cursor && prefix <= cursor)
    && (forall j :: 0 <= j < |ahead| ==> visited[skip + j] == ahead[j] && prefix <= ahead[j] && ahead[j] != cursor)
    && (|visited| > |ahead| + skip ==> !(prefix <= visited[|ahead| + skip]))
  }

  lemma ScanAt(visited: seq<string>, ahead: seq<string>, skip: nat, prefix: string, cursor: string, i: nat)
    requires IsScan(visited, ahead, skip, prefix, cursor) && i <= |ahead| + skip
    ensures (i < |visited| && prefix <= visited[i]) <==> i < |ahead| + skip
    ensures i < |ahead| + skip ==> (visited[i] == cursor <==> i < skip)
    ensures skip <= i < |ahead| + skip ==> visited[i] == ahead[i - skip]
  {
    if skip <= i < |ahead| + skip { assert visited[skip + (i - skip)] == ahead[i - skip]; }
  }

  lemma EntriesReadable(db: DB, prefix: string, cursor: string)
    requires db.Exact()
    ensures "" !in db.missingHash
    ensures Readable(db.books, db.missingHash, Ascending(Ahead(db.missingHash.Keys, prefix, cursor)))
  {
    hide ExactBuckets, Before;
    forall k | k in db.missingHash ensures k != "" && db.missingHash[k] in db.books {
      BacklogEntry(db, k);
    }
  }

  lemma VisitsNothing(visited: seq<string>, prefix: string, cursor: string)
    requires visited == [] || !(prefix <= visited[0])
    ensures IsScan(visited, [], 0, prefix, cursor)
  {
  }

  /** A scan from the cursor meets the cursor's own entry at most once, first, and
      then exactly the entries ahead of it. */
  lemma VisitsAhead(keys: set<string>, prefix: string, cursor: string, start: string)
    requires start == (if cursor != "" then cursor else prefix) && Lands(keys, prefix, cursor) && "" !in keys
    ensures var visited, ahead := SeekFrom(keys, start), Ascending(Ahead(keys, prefix, cursor));
            var skip := if visited != [] && visited[0] == cursor then 1 else 0;
            IsScan(visited, ahead, skip, prefix, cursor)
  {
    hide Before, Ahead, Sorted, IsScan;
    var visited, ahead := SeekFrom(keys, start), Ascending(Ahead(keys, prefix, cursor));
    var skip := if visited != [] && visited[0] == cursor then 1 else 0;
    var n := PrefixRun(visited, prefix);
    if skip == 1 {
      assert visited[0] in visited;
      assert n >= 1;
    }
    forall k ensures k in visited[skip..n] <==> k in ahead {
      RunAhead(keys, prefix, cursor, start, n, k);
      AheadRun(keys, prefix, cursor, start, n, k);
    }
    SortedPart(visited, skip, n);
    SortedUnique(visited[skip..n], ahead);
    forall k | k in ahead ensures prefix <= k && k != cursor { AheadOf(keys, prefix, cursor, k); }
    ScanIs(visited, ahead, skip, n, prefix, cursor);
  }

  lemma ScanIs(visited: seq<string>, ahead: seq<string>, skip: nat, n: nat, prefix: string, cursor: string)
    requires skip <= 1 && skip <= n <= |visited| && visited[skip..n] == ahead
    requires n < |visited| ==> !(prefix <= visited[n])
    requires skip == 1 ==> visited[0] == cursor && prefix <= cursor
    requires forall k <- ahead :: prefix <= k && k != cursor
    ensures IsScan(visited, ahead, skip, prefix, cursor)
  {
    forall j | 0 <= j < |ahead| ensures visited[skip + j] == ahead[j] && ahead[j] in ahead {
      assert visited[skip..n][j] == ahead[j];
    }
  }

  lemma SortedPart(s: seq<string>, i: nat, n: nat)
    requires Sorted(s) && i <= n <= |s|
    ensures Sorted(s[i..n])
  {
    hide Before;
  }

  lemma AheadOf(keys: set<string>, prefix: string, cursor: string, k: string)
    requires k in Ahead(keys, prefix, cursor) && "" !in keys
    ensures k in keys && prefix <= k && k != cursor && (cursor == "" || Before(cursor, k))
  {
    hide Before;
    BeforeIrreflexive(cursor);
  }

  lemma RunAhead(keys: set<string>, prefix: string, cursor: string, start: string, n: nat, k: string)
    requires start == (if cursor != "" then cursor else prefix) && Lands(keys, prefix, cursor) && "" !in keys
    requires n == PrefixRun(SeekFrom(keys, start), prefix)
    requires var visited := SeekFrom(keys, start); visited != [] && visited[0] == cursor ==> n >= 1
    ensures var visited := SeekFrom(keys, start);
            var skip := if visited != [] && visited[0] == cursor then 1 else 0;
            k in visited[skip..n] ==> k in Ahead(keys, prefix, cursor)
  {
    hide Before, Sorted, SeekFrom;
    var visited := SeekFrom(keys, start);
    var skip := if visited != [] && visited[0] == cursor then 1 else 0;
    if k in visited[skip..n] {
      var j :| 0 <= j < n - skip && visited[skip..n][j] == k;
      assert visited[skip + j] == k && k in visited;
      if cursor != "" {
        BeforeTotal(cursor, k);
        AtFront(visited, cursor, skip + j);
      }
    }
  }

  lemma AheadRun(keys: set<string>, prefix: string, cursor: string, start: string, n: nat, k: string)
    requires start == (if cursor != "" then cursor else prefix) && Lands(keys, prefix, cursor) && "" !in keys
    requires n == PrefixRun(SeekFrom(keys, start), prefix)
    requires var visited := SeekFrom(keys, start); visited != [] && visited[0] == cursor ==> n >= 1
    ensures var visited := SeekFrom(keys, start);
            var skip := if visited != [] && visited[0] == cursor then 1 else 0;
            k in Ahead(keys, prefix, cursor) ==> k in visited[skip..n]
  {
    hide Before, Sorted, Ahead, SeekFrom;
    var visited := SeekFrom(keys, start);
    var skip := if visited != [] && visited[0] == cursor then 1 else 0;
    if k in Ahead(keys, prefix, cursor) {
      AheadOf(keys, prefix, cursor, k);
      PrefixNotAfter(prefix, k);
      if Before(k, start) { BeforeAsymmetric(k, start); }
      ScanCovers(keys, start, prefix, n, k);
      var j :| 0 <= j < n && visited[..n][j] == k;
      assert visited[j] == k && j >= skip;
      assert visited[skip..n][j - skip] == k;
    }
  }

  /** The start of a scan can only be its first key. */
  lemma AtFront(visited: seq<string>, cursor: string, i: nat)
    requires Sorted(visited) && i < |visited|
    requires forall k <- visited :: !Before(k, cursor)
    ensures visited[i] == cursor ==> i == 0
  {
    assert visited[0] in visited;
  }

  lemma PageFull(db: DB, prefix: string, cursor: string, limit: nat, books: seq<Book>, next: string)
    requires limit > 0
    requires var ahead := Ascending(Ahead(db.missingHash.Keys, prefix, cursor));
             Holds(db, ahead, books, next) && |books| == (if |ahead| <= limit then |ahead| else limit)
    ensures ListsBacklog(db, prefix, cursor, limit, books,
                         if |Ascending(Ahead(db.missingHash.Keys, prefix, cursor))| <= limit then "" else next)
  {
    hide Before, Ahead, Sorted;
    var ahead := Ascending(Ahead(db.missingHash.Keys, prefix, cursor));
    var page := BacklogPage(db.missingHash.Keys, prefix, cursor, limit);
    assert forall k <- page.0 :: k in ahead;
    forall j | 0 <= j < |books| ensures books[j] == RecordOf(db.books, db.missingHash, page.0, j) {
      assert page.0[j] == ahead[j];
    }
  }

  // ---- the walk, with other transactions in between ----

  /** What one worker pass sees: the backlog at each listing, and the cursors it follows. */
  ghost predicate IsWalk(backlogs: seq<set<string>>, cursors: seq<string>, prefix: string, limit: nat)
    requires limit > 0
  {
    && |cursors| == |backlogs| + 1 && cursors[0] == ""
    && (forall i :: 0 <= i < |backlogs| ==> "" !in backlogs[i])
    && (forall i :: 0 <= i < |backlogs| ==> BacklogPage(backlogs[i], prefix, cursors[i], limit).1 == cursors[i + 1])
    && (forall i :: 0 < i < |backlogs| ==> cursors[i] != "")
  }

  /** The keys tried at one listing. */
  function Tried(backlogs: seq<set<string>>, cursors: seq<string>, prefix: string, limit: nat, i: nat): seq<string>
    requires limit > 0 && i < |backlogs| && |cursors| == |backlogs| + 1
  {
    BacklogPage(backlogs[i], prefix, cursors[i], limit).0
  }

  /** Whatever is created, hashed or deleted between listings, the cursors strictly
      increase until the walk ends. */
  lemma {:induction false} CursorsIncrease(backlogs: seq<set<string>>, cursors: seq<string>, prefix: string,
                                           limit: nat, i: nat, j: nat)
    requires limit > 0 && IsWalk(backlogs, cursors, prefix, limit)
    requires 0 < i < j <= |backlogs| && cursors[j] != ""
    ensures Before(cursors[i], cursors[j])
    decreases j - i
  {
    hide Before;
    PageSplits(backlogs[i], prefix, cursors[i], limit);
    if i + 1 < j {
      CursorsIncrease(backlogs, cursors, prefix, limit, i + 1, j);
      BeforeTransitive(cursors[i], cursors[i + 1], cursors[j]);
    }
  }

  /** No entry is tried twice in one walk. */
  lemma TriedOnce(backlogs: seq<set<string>>, cursors: seq<string>, prefix: string, limit: nat, i: nat, j: nat,
                  k: string)
    requires limit > 0 && IsWalk(backlogs, cursors, prefix, limit) && i < j < |backlogs|
    requires k in Tried(backlogs, cursors, prefix, limit, i)
    ensures k !in Tried(backlogs, cursors, prefix, limit, j)
  {
    hide Before, BacklogPage;
    PageSplits(backlogs[i], prefix, cursors[i], limit);
    PageSplits(backlogs[j], prefix, cursors[j], limit);
    assert k == cursors[i + 1] || Before(k, cursors[i + 1]);
    if i + 1 < j {
      CursorsIncrease(backlogs, cursors, prefix, limit, i + 1, j);
      if k != cursors[i + 1] { BeforeTransitive(k, cursors[i + 1], cursors[j]); }
    }
    if k in Tried(backlogs, cursors, prefix, limit, j) {
      assert Before(cursors[j], k);
      BeforeIrreflexive(k);
      if k != cursors[j] { BeforeTransitive(k, cursors[j], k); }
      assert false;
    }
  }

  /** An entry that stays in the backlog throughout a finished walk is tried. */
  lemma {:induction false} StayingEntryTried(backlogs: seq<set<string>>, cursors: seq<string>, prefix: string,
                                             limit: nat, k: string, n: nat)
    returns (i: nat)
    requires limit > 0 && IsWalk(backlogs, cursors, prefix, limit) && n < |backlogs| && cursors[|backlogs|] == ""
    requires prefix <= k && forall m :: 0 <= m < |backlogs| ==> k in backlogs[m]
    requires cursors[n] == "" || Before(cursors[n], k)
    ensures i < |backlogs| && k in Tried(backlogs, cursors, prefix, limit, i)
    decreases |backlogs| - n
  {
    hide Before, BacklogPage;
    PageSplits(backlogs[n], prefix, cursors[n], limit);
    assert k in Ahead(backlogs[n], prefix, cursors[n]);
    if k in Tried(backlogs, cursors, prefix, limit, n) {
      i := n;
    } else {
      assert k in Ahead(backlogs[n], prefix, cursors[n + 1]);
      i := StayingEntryTried(backlogs, cursors, prefix, limit, k, n + 1);
    }
  }

  /** A walk over entries of a finite set is no longer than that set: it ends. */
  lemma {:induction false} WalkEnds(backlogs: seq<set<string>>, cursors: seq<string>, prefix: string, limit: nat,
                                    all: set<string>, n: nat)
    requires limit > 0 && IsWalk(backlogs, cursors, prefix, limit) && n < |backlogs|
    requires forall m :: 0 <= m < |backlogs| ==> backlogs[m] <= all
    ensures |backlogs| - n <= |Ahead(all, prefix, cursors[n])| + 1
    decreases |backlogs| - n
  {
    hide Before, BacklogPage;
    PageSplits(backlogs[n], prefix, cursors[n], limit);
    if n + 1 < |backlogs| {
      var next := cursors[n + 1];
      WalkEnds(backlogs, cursors, prefix, limit, all, n + 1);
      var here, there := Ahead(all, prefix, cursors[n]), Ahead(all, prefix, next);
      assert next in here;
      BeforeIrreflexive(next);
      forall k | k in there ensures k in here && k != next {
        if cursors[n] != "" { BeforeTransitive(cursors[n], next, k); }
      }
      assert there <= here - {next};
      SubsetSize(there, here - {next});
    }
  }

  lemma {:induction false} SubsetSize(x: set<string>, y: set<string>)
    requires x <= y
    ensures |x| <= |y|
  {
    if x != {} {
      var k :| k in x;
      SubsetSize(x - {k}, y - {k});
    }
  }

  // ---- the worker, without other transactions in between ----

  /** Hashing a stored file by its name; None when it cannot be read. */
  type Hasher = string -> Option<string>

  ghost predicate IsHasher(hashOf: Hasher) {
    forall f :: hashOf(f).Some? ==> !HasNul(hashOf(f).value)
  }

  /** What one attempt does to a record of this owner. */
  function Filled(b: Book, user: string, hashOf: Hasher): Book {
    if b.userID == user && b.contentHash == "" && hashOf(b.filename).Some?
    then b.(contentHash := hashOf(b.filename).value) else b
  }

  /** The snapshots a batch commits. */
  function Snapshots(records: seq<Book>, hashOf: Hasher): seq<Book> {
    if records == [] then [] else
      var init, b := Snapshots(records[..|records| - 1], hashOf), records[|records| - 1];
      if hashOf(b.filename).Some? then init + [b.(contentHash := hashOf(b.filename).value)] else init
  }

  ghost predicate AreStored(books: Books, records: seq<Book>, user: string) {
    && (forall b <- records :: b.id in books && books[b.id] == b && b.userID == user && b.contentHash == "")
    && (forall i, j :: 0 <= i < j < |records| ==> records[i].id != records[j].id)
  }

  ghost predicate Fills(books: Books, records: seq<Book>, user: string, hashOf: Hasher, after: Books) {
    && after.Keys == books.Keys
    && (forall b <- records :: b.id in after && after[b.id] == Filled(b, user, hashOf))
    && (forall id <- books :: (forall b <- records :: b.id != id) ==> after[id] == books[id])
  }

  /** The last snapshot fills in the last record. */
  lemma LastSnapshot(books: Books, records: seq<Book>, user: string, hashOf: Hasher)
    requires AreStored(books, records, user) && records != []
    requires var init := records[..|records| - 1];
             Fills(books, init, user, hashOf, Backfilled(books, Snapshots(init, hashOf)))
    ensures var init, b := records[..|records| - 1], records[|records| - 1];
            Backfilled(books, Snapshots(records, hashOf))
            == Backfilled(books, Snapshots(init, hashOf))[b.id := Filled(b, user, hashOf)]
  {
    var init, b := records[..|records| - 1], records[|records| - 1];
    var hashes, before := Snapshots(records, hashOf), Backfilled(books, Snapshots(init, hashOf));
    AreStoredInit(books, records, user);
    assert before[b.id] == b;
    if hashOf(b.filename).Some? {
      assert hashes[..|hashes| - 1] == Snapshots(init, hashOf);
    } else {
      assert before[b.id := b] == before;
    }
  }

  /** Committing the snapshots of distinct stored records fills in exactly those records. */
  lemma {:induction false} CommitFills(books: Books, records: seq<Book>, user: string, hashOf: Hasher)
    requires AreStored(books, records, user)
    ensures Fills(books, records, user, hashOf, Backfilled(books, Snapshots(records, hashOf)))
  {
    hide AreStored, Filled;
    if records != [] {
      var init := records[..|records| - 1];
      AreStoredInit(books, records, user);
      CommitFills(books, init, user, hashOf);
      LastSnapshot(books, records, user, hashOf);
      FillsOneMore(books, records, user, hashOf, Backfilled(books, Snapshots(init, hashOf)));
    }
  }

  lemma AreStoredInit(books: Books, records: seq<Book>, user: string)
    requires AreStored(books, records, user) && records != []
    ensures var init, b := records[..|records| - 1], records[|records| - 1];
            && AreStored(books, init, user) && (forall o <- init :: o.id != b.id)
            && b.id in books && books[b.id] == b && b.userID == user && b.contentHash == ""
  {
    var init, b := records[..|records| - 1], records[|records| - 1];
    forall o | o in init ensures o.id != b.id {
      var i :| 0 <= i < |init| && init[i] == o;
      assert records[i] == o;
    }
    assert b in records;
  }

  lemma FillsOneMore(books: Books, records: seq<Book>, user: string, hashOf: Hasher, before: Books)
    requires records != [] && Fills(books, records[..|records| - 1], user, hashOf, before)
    requires records[|records| - 1].id in books
    requires forall o <- records[..|records| - 1] :: o.id != records[|records| - 1].id
    ensures Fills(books, records, user, hashOf,
                  before[records[|records| - 1].id := Filled(records[|records| - 1], user, hashOf)])
  {
    hide Filled;
    var init, last := records[..|records| - 1], records[|records| - 1];
    LastOrBefore(records);
    var after := before[last.id := Filled(last, user, hashOf)];
    assert after.Keys == books.Keys;
    forall b | b in records
      ensures b.id in after && after[b.id] == Filled(b, user, hashOf)
    {
      if b in init { assert b.id != last.id; }
    }
  }

  lemma LastOrBefore(records: seq<Book>)
    requires records != []
    ensures forall b :: b in records <==> b in records[..|records| - 1] || b == records[|records| - 1]
  {
    assert records == records[..|records| - 1] + [records[|records| - 1]];
  }

  lemma {:induction false} SnapshotsSafe(records: seq<Book>, hashOf: Hasher)
    requires IsHasher(hashOf)
    ensures forall h <- Snapshots(records, hashOf) :: !HasNul(h.contentHash)
  {
    if records != [] { SnapshotsSafe(records[..|records| - 1], hashOf); }
  }

  /** The backlog key of a record. */
  function KeyOf(books: Books, id: string): string
    requires id in books
  {
    SearchKey(books[id].userID, id)
  }

  /** The records on a backlog page are stored, distinct, unhashed and of this owner. */
  lemma PageStored(db: DB, user: string, cursor: string, keys: seq<string>)
    requires db.Exact() && IsOwner(user) && Readable(db.books, db.missingHash, keys) && Sorted(keys)
    requires forall k <- keys :: k in Ahead(db.missingHash.Keys, BacklogPrefix(Some(user)), cursor)
    ensures AreStored(db.books, RecordsOf(db.books, db.missingHash, keys), user)
    ensures forall id <- db.books :: KeyOf(db.books, id) in keys <==>
      exists b :: b in RecordsOf(db.books, db.missingHash, keys) && b.id == id
  {
    hide ExactBuckets, Before, SearchKey, IsOwner;
    var records := RecordsOf(db.books, db.missingHash, keys);
    forall i | 0 <= i < |records|
      ensures records[i].id in db.books && db.books[records[i].id] == records[i] && records[i].userID == user
      ensures records[i].contentHash == "" && keys[i] == KeyOf(db.books, records[i].id)
    {
      assert keys[i] in keys;
      BacklogEntry(db, keys[i]);
      OwnerOfKey(db, user, keys[i]);
    }
    forall i, j | 0 <= i < j < |records| ensures records[i].id != records[j].id {
      BeforeIrreflexive(keys[i]);
    }
    forall id | id in db.books
      ensures KeyOf(db.books, id) in keys <==> exists b :: b in records && b.id == id
    {
      if KeyOf(db.books, id) in keys {
        var i :| 0 <= i < |keys| && keys[i] == KeyOf(db.books, id);
        KeysAgree(db, id, records[i].id);
        assert records[i] in records && records[i].id == id;
      }
      if b :| b in records && b.id == id {
        var i :| 0 <= i < |records| && records[i] == b;
        assert keys[i] in keys;
      }
    }
  }

  lemma OwnerOfKey(db: DB, user: string, k: string)
    requires db.Exact() && IsOwner(user) && k in db.missingHash && BacklogPrefix(Some(user)) <= k
    requires db.missingHash[k] in db.books
    ensures db.books[db.missingHash[k]].userID == user
  {
    hide ExactBuckets, IsBook, IsLowering;
    BacklogEntry(db, k);
    var b := db.books[db.missingHash[k]];
    var rest := k[|user| + 1..];
    assert k == user + NUL + rest;
    StoredBook(db, b.id);
    NoSeparators(b);
    BeforeJoined(user, rest, b.userID, b.id);
  }

  lemma StoredBook(db: DB, id: string)
    requires db.Exact() && id in db.books
    ensures IsBook(db.books[id]) && db.books[id].id == id
  {
    hide IsLowering, Derived, CountsExact, ContentExact, SummaryExact, ProgressKeyed, TimeExact, IsBook;
  }

  lemma KeysAgree(db: DB, i: string, j: string)
    requires db.Exact() && i in db.books && j in db.books && KeyOf(db.books, i) == KeyOf(db.books, j)
    ensures i == j
  {
    StoredBook(db, i);
    StoredBook(db, j);
    hide ExactBuckets;
    NoSeparators(db.books[i]);
    NoSeparators(db.books[j]);
    LastComponent(db.books[i].userID, db.books[j].userID, '\0', i, j);
  }

  /** One batch: list a page, hash its files, commit what was read. */
  method Batch(db: DB, user: string, cursor: string, hashOf: Hasher) returns (next: string)
    requires db.Exact() && IsOwner(user) && IsHasher(hashOf)
    requires cursor == "" || BacklogPrefix(Some(user)) <= cursor
    modifies db
    ensures db.Exact()
    ensures db.books.Keys == old(db.books).Keys
    ensures var page := BacklogPage(old(db.missingHash).Keys, BacklogPrefix(Some(user)), cursor, 16);
            && next == page.1
            && forall id <- old(db.books) :: db.books[id] ==
                 if KeyOf(old(db.books), id) in page.0
                 then Filled(old(db.books)[id], user, hashOf) else old(db.books)[id]
  {
    hide DB.Exact, Before, Ahead, BacklogPage, RecordsOf, Readable, AreStored, Filled, Snapshots, IsHasher, IsOwner,
         KeyOf, Sorted;
    var prefix := BacklogPrefix(Some(user));
    var books: seq<Book>;
    books, next := ListBooksMissingHash(db, Some(user), cursor, LEGACY_HASH_BATCH_SIZE);
    ghost var page := BacklogPage(db.missingHash.Keys, prefix, cursor, LEGACY_HASH_BATCH_SIZE);
    PageOrdered(db, prefix, cursor);
    PageStored(db, user, cursor, page.0);
    PageFills(db.books, page.0, books, user, hashOf);
    var hashes := HashFiles(books, hashOf);
    db.BackfillBookContentHashes(hashes);
  }

  /** Hashes the files of one page; an unreadable file keeps its backlog entry. */
  method HashFiles(books: seq<Book>, hashOf: Hasher) returns (hashes: seq<Book>)
    requires IsHasher(hashOf)
    ensures hashes == Snapshots(books, hashOf) && forall h <- hashes :: !HasNul(h.contentHash)
  {
    hide Snapshots, IsHasher;
    hashes := [];
    var i := 0;
    NoSnapshots(hashOf);
    assert books[..0] == [];
    while i < |books|
      invariant 0 <= i <= |books|
      invariant hashes == Snapshots(books[..i], hashOf)
    {
      var book := books[i];
      SnapshotsStep(books, i, hashOf);
      var hash := hashOf(book.filename);
      if hash.Some? {
        hashes := hashes + [book.(contentHash := hash.value)];
      }
      i := i + 1;
    }
    assert books[..i] == books;
    SnapshotsSafe(books, hashOf);
  }

  lemma NoSnapshots(hashOf: Hasher)
    ensures Snapshots([], hashOf) == []
  {
  }

  lemma SnapshotsStep(records: seq<Book>, i: nat, hashOf: Hasher)
    requires i < |records|
    ensures Snapshots(records[..i + 1], hashOf) ==
            Snapshots(records[..i], hashOf) +
            (if hashOf(records[i].filename).Some?
             then [records[i].(contentHash := hashOf(records[i].filename).value)] else [])
  {
    assert records[..i + 1][..i] == records[..i];
  }

  lemma PageOrdered(db: DB, prefix: string, cursor: string)
    requires db.Exact()
    ensures var page := BacklogPage(db.missingHash.Keys, prefix, cursor, LEGACY_HASH_BATCH_SIZE);
            Sorted(page.0) && forall k <- page.0 :: k in Ahead(db.missingHash.Keys, prefix, cursor)
  {
    hide ExactBuckets, Before;
    EntriesReadable(db, prefix, cursor);
    PageSplits(db.missingHash.Keys, prefix, cursor, LEGACY_HASH_BATCH_SIZE);
  }

  lemma PageFills(books: Books, keys: seq<string>, records: seq<Book>, user: string, hashOf: Hasher)
    requires AreStored(books, records, user)
    requires forall id <- books :: KeyOf(books, id) in keys <==> exists b :: b in records && b.id == id
    ensures var after := Backfilled(books, Snapshots(records, hashOf));
            after.Keys == books.Keys &&
            forall id <- books :: after[id] ==
              if KeyOf(books, id) in keys then Filled(books[id], user, hashOf) else books[id]
  {
    hide KeyOf, Snapshots, Filled, Backfilled;
    CommitFills(books, records, user, hashOf);
    var after := Backfilled(books, Snapshots(records, hashOf));
    forall id | id in books
      ensures after[id] == if KeyOf(books, id) in keys then Filled(books[id], user, hashOf) else books[id]
    {
      if KeyOf(books, id) in keys {
        var b :| b in records && b.id == id;
      }
    }
  }

  /** Every record of the owner that can be hashed, hashed; all others as they were. */
  function AllFilled(books: Books, user: string, hashOf: Hasher): Books {
    map id | id in books :: Filled(books[id], user, hashOf)
  }

  /** The backlog the books themselves call for. */
  ghost function BacklogKeys(books: Books): set<string> {
    set id | id in books && books[id].contentHash == "" :: KeyOf(books, id)
  }

  lemma BacklogIs(db: DB)
    requires db.Exact()
    ensures db.missingHash.Keys == BacklogKeys(db.books) && "" !in db.missingHash
  {
    hide ExactBuckets;
    forall k | k in db.missingHash ensures k in BacklogKeys(db.books) && k != "" { BacklogEntry(db, k); }
    forall id | id in db.books && db.books[id].contentHash == "" ensures KeyOf(db.books, id) in db.missingHash {
      BacklogEntryOf(db, id);
    }
  }

  /** How far a catch-up has come: entries ahead of the cursor are untouched, all
      other records have had their attempt. */
  ghost predicate CaughtUpTo(was: Books, now: Books, ahead: set<string>, user: string, hashOf: Hasher) {
    && now.Keys == was.Keys
    && forall id <- was :: now[id] == if KeyOf(was, id) in ahead then was[id] else Filled(was[id], user, hashOf)
  }

  lemma NotStarted(db: DB, user: string, hashOf: Hasher)
    requires db.Exact()
    ensures CaughtUpTo(db.books, db.books, Ahead(BacklogKeys(db.books), BacklogPrefix(Some(user)), ""), user, hashOf)
  {
    forall id | id in db.books && db.books[id].userID == user && db.books[id].contentHash == ""
      ensures KeyOf(db.books, id) in Ahead(BacklogKeys(db.books), BacklogPrefix(Some(user)), "")
    {
      StoredBook(db, id);
      assert BacklogPrefix(Some(user)) <= KeyOf(db.books, id);
    }
    hide DB.Exact;
  }

  lemma KeysKept(was: Books, now: Books, ahead: set<string>, user: string, hashOf: Hasher)
    requires CaughtUpTo(was, now, ahead, user, hashOf)
    ensures forall id <- was :: now[id].userID == was[id].userID && KeyOf(now, id) == KeyOf(was, id)
  {
    hide SearchKey;
  }

  lemma OneBatch(was: Books, before: Books, after: Books, ahead: set<string>, page: seq<string>, user: string,
                 hashOf: Hasher)
    requires CaughtUpTo(was, before, ahead, user, hashOf) && after.Keys == before.Keys
    requires forall k <- page :: k in ahead
    requires forall id <- before ::
      after[id] == if KeyOf(before, id) in page then Filled(before[id], user, hashOf) else before[id]
    ensures CaughtUpTo(was, after, ahead - (set k | k in page), user, hashOf)
  {
    KeysKept(was, before, ahead, user, hashOf);
    hide KeyOf, Filled;
  }

  /** A batch takes its page out of what is ahead, and nothing else. */
  lemma AheadAfter(before: Books, after: Books, prefix: string, cursor: string, next: string, page: seq<string>,
                   user: string, hashOf: Hasher)
    requires after.Keys == before.Keys && next != ""
    requires forall id <- before ::
      after[id] == if KeyOf(before, id) in page then Filled(before[id], user, hashOf) else before[id]
    requires Ahead(BacklogKeys(before), prefix, next) ==
             Ahead(BacklogKeys(before), prefix, cursor) - (set k | k in page)
    ensures Ahead(BacklogKeys(after), prefix, next) == Ahead(BacklogKeys(before), prefix, next)
  {
    hide Before, SearchKey;
    forall k | k in BacklogKeys(after) ensures k in BacklogKeys(before) {
      var id :| id in after && after[id].contentHash == "" && k == KeyOf(after, id);
      assert KeyOf(before, id) == k;
    }
    forall k | k in BacklogKeys(before) && k !in page ensures k in BacklogKeys(after) {
      var id :| id in before && before[id].contentHash == "" && k == KeyOf(before, id);
      assert KeyOf(after, id) == k;
    }
  }

  lemma AllCaughtUp(was: Books, now: Books, user: string, hashOf: Hasher)
    requires CaughtUpTo(was, now, {}, user, hashOf)
    ensures now == AllFilled(was, user, hashOf)
  {
    hide KeyOf, Filled;
  }

  lemma AllFilledIs(books: Books, user: string, hashOf: Hasher)
    ensures AllFilled(books, user, hashOf).Keys == books.Keys
    ensures forall id <- books ::
      var was := books[id];
      AllFilled(books, user, hashOf)[id] ==
        if was.userID == user && was.contentHash == "" && hashOf(was.filename).Some?
        then was.(contentHash := hashOf(was.filename).value) else was
  {
  }

  /** The worker loop for one user: it ends, and every readable file has been hashed. */
  method CatchUp(db: DB, user: string, hashOf: Hasher)
    requires db.Exact() && IsOwner(user) && IsHasher(hashOf)
    modifies db
    ensures db.Exact() && db.books == AllFilled(old(db.books), user, hashOf)
    ensures db.books.Keys == old(db.books).Keys
    ensures forall id <- old(db.books) ::
      var was := old(db.books)[id];
      db.books[id] == if was.userID == user && was.contentHash == "" && hashOf(was.filename).Some?
                      then was.(contentHash := hashOf(was.filename).value) else was
  {
    hide DB.Exact, Before, Ahead, BacklogPage, Filled, IsHasher, IsOwner, KeyOf, CaughtUpTo, BacklogKeys, AllFilled;
    AllFilledIs(db.books, user, hashOf);
    var prefix := BacklogPrefix(Some(user));
    var next := "";
    ghost var was := db.books;
    NotStarted(db, user, hashOf);
    while true
      invariant db.Exact() && (next == "" || prefix <= next)
      invariant CaughtUpTo(was, db.books, Ahead(BacklogKeys(db.books), prefix, next), user, hashOf)
      decreases |Ahead(BacklogKeys(db.books), prefix, next)|
    {
      ghost var before, cursor := db.books, next;
      ghost var ahead := Ahead(BacklogKeys(before), prefix, cursor);
      ghost var page := BacklogPage(BacklogKeys(before), prefix, cursor, LEGACY_HASH_BATCH_SIZE).0;
      BacklogIs(db);
      PageSplits(BacklogKeys(before), prefix, cursor, LEGACY_HASH_BATCH_SIZE);
      next := Batch(db, user, next, hashOf);
      OneBatch(was, before, db.books, ahead, page, user, hashOf);
      if next == "" {
        assert ahead - (set k | k in page) == {};
        AllCaughtUp(was, db.books, user, hashOf);
        return;
      }
      AheadHasPrefix(BacklogKeys(before), prefix, cursor, next);
      AheadAfter(before, db.books, prefix, cursor, next, page, user, hashOf);
      SmallerSet(Ahead(BacklogKeys(before), prefix, next), ahead);
    }
  }

  lemma AheadHasPrefix(keys: set<string>, prefix: string, cursor: string, k: string)
    requires k in Ahead(keys, prefix, cursor)
    ensures prefix <= k
  {
    hide Before;
  }

  lemma SmallerSet(x: set<string>, y: set<string>)
    requires x < y
    ensures |x| < |y|
  {
    var k :| k in y && k !in x;
    SubsetSize(x, y - {k});
  }
}
