/** Whole runs of the store: what any sequence of transactions does, seen from the
    books and progress records alone. */
module Replay {
  import opened Wrappers
  import opened ByteOrder
  import opened Text
  import opened Clock
  import opened Library
  import opened Indexes
  import opened Store

  /** The primary data; everything else in the store is derived from it. */
  datatype Ledger = Ledger(books: Books, progress: ProgressBucket)

  datatype Op =
    | Create(book: Book)
    | Save(book: Book)
    | Delete(id: string, user: string)
    | DeleteMany(ids: seq<string>, user: string)
    | SetCategory(ids: seq<string>, user: string, category: Option<string>)
    | Rename(user: string, from: string, to: Option<string>)
    | Backfill(hashes: seq<Book>)
    | SaveProgress(p: Progress, user: string, expected: Option<Instant>)
    | DeleteProgress(bookID: string, user: string)

  /** What the handlers guarantee: fresh identifiers for new books, a signed-in user. */
  predicate Admissible(l: Ledger, op: Op) {
    match op
    case Create(b) => IsBook(b) && b.id !in l.books
    case Save(b) => IsBook(b)
    case Rename(user, _, _) => IsOwner(user)
    case Backfill(hashes) => forall h <- hashes :: !HasNul(h.contentHash)
    case SaveProgress(_, user, _) => IsId(user)
    case _ => true
  }

  ghost predicate AllOwned(books: Books, ids: set<string>, user: string) {
    forall id <- ids :: OwnedBy(books, id, user)
  }

  function Normalized(b: Book): Book {
    b.(category := NormalizeCategory(b.category))
  }

  /** The meaning of one transaction on the primary data. */
  ghost function Step(l: Ledger, op: Op): Ledger {
    match op
    case Create(b) =>
      if Copies(l.books, b.userID, b.contentHash) != {} then l else l.(books := l.books[b.id := Normalized(b)])
    case Save(b) => l.(books := l.books[b.id := Normalized(b)])
    case Delete(id, user) =>
      if OwnedBy(l.books, id, user) then Ledger(l.books - {id}, l.progress - {OwnerKey(user, id)}) else l
    case DeleteMany(ids, user) =>
      if AllOwned(l.books, Requested(ids), user)
      then Ledger(l.books - Requested(ids), l.progress - ProgressKeysOf(user, Requested(ids))) else l
    case SetCategory(ids, user, category) =>
      if AllOwned(l.books, Requested(ids), user)
      then l.(books := Recategorized(l.books, Requested(ids), NormalizeCategory(category))) else l
    case Rename(user, from, to) =>
      if user == "" || TrimSpace(from) == "" then l
      else l.(books := Recategorized(l.books, OwnedIn(l.books, user, TrimSpace(from)), NormalizeCategory(to)))
    case Backfill(hashes) => l.(books := Backfilled(l.books, hashes))
    case SaveProgress(p, user, expected) =>
      var verdict := SaveVerdict(l.books, l.progress, p, user, expected);
      if verdict.Failure? then l else
        Ledger(l.books[p.bookID := l.books[p.bookID].(lastReadAt := Some(p.updatedAt))],
               l.progress[OwnerKey(user, p.bookID) := verdict.value])
    case DeleteProgress(bookID, user) => l.(progress := l.progress - {OwnerKey(user, bookID)})
  }

  ghost function After(l: Ledger, ops: seq<Op>): Ledger {
    if ops == [] then l else Step(After(l, ops[..|ops| - 1]), ops[|ops| - 1])
  }

  ghost predicate AdmissibleRun(l: Ledger, ops: seq<Op>) {
    forall i :: 0 <= i < |ops| ==> Admissible(After(l, ops[..i]), ops[i])
  }

  function Of(db: DB): Ledger
    reads db
  {
    Ledger(db.books, db.progress)
  }

  /** One transaction on the indexed store does to books and progress what its meaning
      says, and leaves every index exact. */
  method Perform(db: DB, op: Op)
    requires db.Exact() && Admissible(Of(db), op)
    modifies db
    ensures db.Exact() && Of(db) == Step(old(Of(db)), op)
  {
    hide ExactBuckets, Recategorized, OwnedIn, Copies, NormalizeCategory, IsBook, IsOwner, OwnerKey, Requested,
         Elements;
    RecategorizedNone(db.books, if op.Rename? then NormalizeCategory(op.to) else None);
    match op
    case Create(b) =>
      var _ := db.CreateBook(b);
    case Save(b) =>
      db.SaveBook(b);
    case Delete(id, user) =>
      var _ := db.DeleteBookData(id, user);
    case DeleteMany(ids, user) =>
      var _ := db.DeleteBooksData(ids, user);
    case SetCategory(ids, user, category) =>
      var _ := db.UpdateBooksCategory(ids, user, category);
    case Rename(user, from, to) =>
      var _, _ := db.RenameBookCategory(user, from, to);
    case Backfill(hashes) =>
      db.BackfillBookContentHashes(hashes);
    case SaveProgress(p, user, expected) =>
      var _ := db.SaveProgressIfCurrent(p, user, expected);
    case DeleteProgress(bookID, user) =>
      db.DeleteProgress(bookID, user);
  }

  /** Any run from an exact store, an empty one for instance, stays exact. */
  method Run(db: DB, ops: seq<Op>)
    requires db.Exact() && AdmissibleRun(Of(db), ops)
    modifies db
    ensures db.Exact() && Of(db) == After(old(Of(db)), ops)
  {
    hide ExactBuckets, Step, Admissible;
    ghost var start := Of(db);
    assert ops[..0] == [];
    var i := 0;
    while i < |ops|
      invariant 0 <= i <= |ops|
      invariant db.Exact() && Of(db) == After(start, ops[..i])
    {
      assert ops[..i + 1][..i] == ops[..i];
      Perform(db, ops[i]);
      i := i + 1;
    }
    assert ops[..i] == ops;
  }

  // ---- no lost updates ----

  /** The operation saves p under the key: what is asked for, in the user's name, for a book the user
      owns, on top of the expected version if one is expected. */
  ghost predicate Commits(l: Ledger, op: Op, key: string, p: Progress) {
    && op.SaveProgress? && OwnerKey(op.user, op.p.bookID) == key
    && op.p.bookID in l.books && l.books[op.p.bookID].userID == op.user
    && (op.expected.Some? ==> key in l.progress && l.progress[key].updatedAt == op.expected.value)
    && p.bookID == op.p.bookID && p.userID == op.user && p.cfi == op.p.cfi && p.percentage == op.p.percentage
    && p.deviceID == op.p.deviceID && p.updatedAt == op.p.updatedAt
  }

  /** A record is what the operation saved there, or it was there before. */
  lemma OnlyCommitsWrite(l: Ledger, op: Op, key: string)
    ensures var after := Step(l, op).progress;
            key in after ==> Commits(l, op, key, after[key]) || (key in l.progress && after[key] == l.progress[key])
    ensures forall p :: Commits(l, op, key, p) ==> key in Step(l, op).progress && Step(l, op).progress[key] == p
  {
    hide OwnerKey, Recategorized, Backfilled, Requested, ProgressKeysOf, Copies, OwnedIn;
  }

  ghost predicate NoCommit(l: Ledger, ops: seq<Op>, key: string, i: nat)
    requires i < |ops|
  {
    forall p :: !Commits(After(l, ops[..i]), ops[i], key, p)
  }

  /** After operation i saved under the key, what is stored there later was saved by
      the last operation to commit. */
  lemma {:induction false} LastWriter(l: Ledger, ops: seq<Op>, key: string, i: nat, n: nat) returns (m: nat)
    requires i < n <= |ops| && exists p :: Commits(After(l, ops[..i]), ops[i], key, p)
    requires key in After(l, ops[..n]).progress
    ensures i <= m < n && Commits(After(l, ops[..m]), ops[m], key, After(l, ops[..n]).progress[key])
    ensures forall k :: m < k < n ==> NoCommit(l, ops, key, k)
    decreases n
  {
    hide Commits, Step;
    var before := After(l, ops[..n - 1]);
    assert ops[..n][..n - 1] == ops[..n - 1];
    OnlyCommitsWrite(before, ops[n - 1], key);
    var p := After(l, ops[..n]).progress[key];
    if Commits(before, ops[n - 1], key, p) {
      m := n - 1;
    } else {
      assert NoCommit(l, ops, key, n - 1);
      m := LastWriter(l, ops, key, i, n - 1);
    }
  }

  ghost predicate DistinctStamps(l: Ledger, ops: seq<Op>, key: string) {
    forall m, n, p, q | 0 <= m < |ops| && 0 <= n < |ops| && m != n ::
      Commits(After(l, ops[..m]), ops[m], key, p) && Commits(After(l, ops[..n]), ops[n], key, q) ==>
        p.updatedAt != q.updatedAt
  }

  /** A save that expects the version another save wrote lands directly on it: nothing
      was saved in between, so nothing is lost. */
  lemma NoLostUpdate(l: Ledger, ops: seq<Op>, key: string, i: nat, j: nat, p: Progress, q: Progress)
    requires i < j < |ops| && DistinctStamps(l, ops, key)
    requires Commits(After(l, ops[..i]), ops[i], key, p) && Commits(After(l, ops[..j]), ops[j], key, q)
    requires ops[j].expected == Some(p.updatedAt)
    ensures key in After(l, ops[..j]).progress && After(l, ops[..j]).progress[key] == p
    ensures forall k :: i < k < j ==> NoCommit(l, ops, key, k)
  {
    hide Step, OwnerKey;
    var m := LastWriter(l, ops, key, i, j);
    var now := After(l, ops[..j]).progress[key];
    assert now.updatedAt == p.updatedAt;
    hide Commits;
    assert m == i;
  }

  // ---- category renames conserve the library ----

  /** The category a rename moves books to; empty when it dissolves one. */
  function TargetOf(to: Option<string>): string {
    if NormalizeCategory(to).Some? then NormalizeCategory(to).value else ""
  }

  lemma TargetIs(to: Option<string>)
    ensures if to.None? then TargetOf(to) == "" else IsAround(to.value, TargetOf(to))
  {
    hide TrimSpace, IsAround;
    if to.Some? { TrimSpaceIs(to.value, TargetOf(to)); }
  }

  lemma MovedTo(b: Book, to: Option<string>)
    ensures CategoryOf(b.(category := NormalizeCategory(to))) == TargetOf(to)
  {
    if to.Some? { TrimIdempotent(to.value); }
  }

  /** Where every record is after a rename. */
  lemma RenamedRecord(books: Books, user: string, from: string, to: Option<string>, id: string)
    requires id in books
    ensures var after := Recategorized(books, OwnedIn(books, user, from), NormalizeCategory(to));
            && id in after && after[id].userID == books[id].userID
            && CategoryOf(after[id]) ==
                 (if books[id].userID == user && CategoryOf(books[id]) == from then TargetOf(to)
                  else CategoryOf(books[id]))
            && (id !in OwnedIn(books, user, from) ==> after[id] == books[id])
  {
    MovedTo(books[id], to);
    hide CategoryOf, NormalizeCategory, TargetOf;
  }

  /** Renaming moves exactly the books of one category, and with them its count. */
  lemma RenameConserves(books: Books, user: string, from: string, to: Option<string>)
    requires user != "" && from != ""
    ensures var target := TargetOf(to);
            var after := Recategorized(books, OwnedIn(books, user, from), NormalizeCategory(to));
            && (if to.None? then target == "" else IsAround(to.value, target))
            && after.Keys == books.Keys
            && (forall id <- books :: id !in OwnedIn(books, user, from) ==> after[id] == books[id])
            && (forall u :: Owned(after, u) == Owned(books, u))
            && OwnedIn(after, user, target) == OwnedIn(books, user, target) + OwnedIn(books, user, from)
            && (target != from ==>
                  && OwnedIn(after, user, from) == {}
                  && |OwnedIn(after, user, target)| == |OwnedIn(books, user, target)| + |OwnedIn(books, user, from)|)
            && (forall u, c :: (u != user || (c != from && c != target)) ==>
                  OwnedIn(after, u, c) == OwnedIn(books, u, c))
  {
    hide NormalizeCategory, TargetOf, OwnedIn, Owned, IsAround;
    var target := TargetOf(to);
    TargetIs(to);
    forall id | id in books && id !in OwnedIn(books, user, from)
      ensures Recategorized(books, OwnedIn(books, user, from), NormalizeCategory(to))[id] == books[id]
    {
      RenamedRecord(books, user, from, to, id);
    }
    var after := Recategorized(books, OwnedIn(books, user, from), NormalizeCategory(to));
    forall u ensures Owned(after, u) == Owned(books, u) { RenamedShelf(books, user, from, to, u, from); }
    forall u, c | u != user || (c != from && c != target) ensures OwnedIn(after, u, c) == OwnedIn(books, u, c) {
      RenamedShelf(books, user, from, to, u, c);
    }
    RenamedShelf(books, user, from, to, user, target);
    if target != from {
      DifferentShelves(books, user, target, from);
      DisjointUnion(OwnedIn(books, user, target), OwnedIn(books, user, from));
      RenamedShelf(books, user, from, to, user, from);
    }
  }

  lemma DifferentShelves(books: Books, user: string, c: string, d: string)
    requires c != d
    ensures OwnedIn(books, user, c) !! OwnedIn(books, user, d)
  {
    hide CategoryOf;
  }

  /** The records of the library after a rename. */
  lemma RenamedRecords(books: Books, user: string, from: string, to: Option<string>)
    ensures var after := Recategorized(books, OwnedIn(books, user, from), NormalizeCategory(to));
            && after.Keys == books.Keys
            && forall id | id in books ::
                 && after[id].userID == books[id].userID
                 && CategoryOf(after[id])
                    == if books[id].userID == user && CategoryOf(books[id]) == from
                          then TargetOf(to) else CategoryOf(books[id])
  {
    var after := Recategorized(books, OwnedIn(books, user, from), NormalizeCategory(to));
    forall id | id in books
      ensures after[id].userID == books[id].userID
      ensures CategoryOf(after[id]) ==
        if books[id].userID == user && CategoryOf(books[id]) == from then TargetOf(to) else CategoryOf(books[id])
    {
      RenamedRecord(books, user, from, to, id);
    }
  }

  /** Every shelf of the library after a rename. */
  lemma RenamedShelf(books: Books, user: string, from: string, to: Option<string>, u: string, c: string)
    ensures var after := Recategorized(books, OwnedIn(books, user, from), NormalizeCategory(to));
            && Owned(after, u) == Owned(books, u)
            && OwnedIn(after, u, c) ==
                 (if u == user && c == TargetOf(to) then OwnedIn(books, u, c) + OwnedIn(books, user, from)
                  else if u == user && c == from then {}
                  else OwnedIn(books, u, c))
  {
    hide CategoryOf, NormalizeCategory, TargetOf, Recategorized;
    RenamedRecords(books, user, from, to);
  }

  lemma DisjointUnion(x: set<string>, y: set<string>)
    requires x !! y
    ensures |x + y| == |x| + |y|
  {
  }

  // ---- stored categories are trimmed ----

  /** Every stored category is a name without white space around it. */
  ghost predicate CategoriesTrimmed(books: Books) {
    forall id <- books :: books[id].category.Some? ==>
      books[id].category.value != "" && NoSpaceAround(books[id].category.value)
  }

  lemma StoredIsTrimmed(given: Option<string>)
    ensures var stored := NormalizeCategory(given);
            stored.Some? ==> stored.value != "" && NoSpaceAround(stored.value)
  {
    NormalizeCategoryIs(given, NormalizeCategory(given));
  }

  lemma StepCategoriesTrimmed(l: Ledger, op: Op)
    requires CategoriesTrimmed(l.books)
    ensures CategoriesTrimmed(Step(l, op).books)
  {
    hide NormalizeCategory, NoSpaceAround, OwnerKey, OwnedIn, Requested, ProgressKeysOf, Copies, Backfilled;
    match op
    case Create(b) => StoredIsTrimmed(b.category);
    case Save(b) => StoredIsTrimmed(b.category);
    case SetCategory(_, _, category) => StoredIsTrimmed(category);
    case Rename(_, _, to) => StoredIsTrimmed(to);
    case Backfill(hashes) =>
      BackfilledKeys(l.books, hashes);
      forall id | id in l.books ensures Backfilled(l.books, hashes)[id].category == l.books[id].category {
        BackfilledRecord(l.books, hashes, id);
      }
    case _ =>
  }

  /** No run stores a category that is empty or has white space around it, whatever names it is given. */
  lemma {:induction false} RunCategoriesTrimmed(l: Ledger, ops: seq<Op>)
    requires CategoriesTrimmed(l.books)
    ensures CategoriesTrimmed(After(l, ops).books)
  {
    hide CategoriesTrimmed, Step;
    if ops != [] {
      RunCategoriesTrimmed(l, ops[..|ops| - 1]);
      StepCategoriesTrimmed(After(l, ops[..|ops| - 1]), ops[|ops| - 1]);
    }
  }

  // ---- uploads never duplicate content ----

  ghost predicate NoDuplicates(books: Books) {
    forall i, j | i in books && j in books && i != j && books[i].id != "" && books[j].id != "" ::
      books[i].userID != "" && books[i].contentHash != "" ==>
        books[i].userID != books[j].userID || books[i].contentHash != books[j].contentHash
  }

  /** The operations that never set a hash by hand. */
  predicate KeepsHashes(op: Op) {
    !op.Save? && !op.Backfill?
  }

  lemma StepNoDuplicates(l: Ledger, op: Op)
    requires NoDuplicates(l.books) && KeepsHashes(op) && Admissible(l, op)
    ensures NoDuplicates(Step(l, op).books)
  {
    hide NormalizeCategory, IsOwner, OwnerKey, OwnedIn, Requested, ProgressKeysOf;
    match op
    case Create(b) =>
      var copies := Copies(l.books, b.userID, b.contentHash);
      forall i | i in l.books && Hashed(l.books[i]) && l.books[i].userID == b.userID
                && l.books[i].contentHash == b.contentHash
        ensures i in copies {}
    case _ =>
  }

  /** Starting without duplicates, no sequence of uploads, deletions, category edits
      and progress saves ever stores the same content twice for one user. */
  lemma {:induction false} RunNoDuplicates(l: Ledger, ops: seq<Op>)
    requires NoDuplicates(l.books) && AdmissibleRun(l, ops) && forall op <- ops :: KeepsHashes(op)
    ensures NoDuplicates(After(l, ops).books)
  {
    hide NoDuplicates, Step, Admissible;
    if ops != [] {
      var n := |ops| - 1;
      forall i | 0 <= i < n ensures Admissible(After(l, ops[..n][..i]), ops[..n][i]) {
        assert ops[..n][..i] == ops[..i];
      }
      RunNoDuplicates(l, ops[..n]);
      StepNoDuplicates(After(l, ops[..n]), ops[n]);
    }
  }
}
