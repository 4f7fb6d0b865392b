/** A backfill batch between other transactions: the worker lists records in one transaction, hashes
    their files outside any, and commits the hashes in another (backend/handlers/legacy_hash_backfill.go,
    backend/storage/library_indexes.go). */
module BackfillRuns {
  import opened Library
  import opened Store
  import opened Backfill
  import opened Replay

  /** The record is listed with the owner and the file it has now. */
  predicate StillListed(records: seq<Book>, id: string, b: Book) {
    exists r <- records :: r.id == id && r.userID == b.userID && r.filename == b.filename
  }

  /** What committing a batch listed earlier does to a record: it gets the hash of the file it names,
      if that could be read, it has none, and it is listed with this owner and file. */
  function Late(records: seq<Book>, hashOf: Hasher, id: string, b: Book): Book {
    if b.contentHash == "" && hashOf(b.filename).Some? && StillListed(records, id, b)
    then b.(contentHash := hashOf(b.filename).value) else b
  }

  /** Each snapshot is of a listed record, with the hash of its file; and each readable one is there. */
  lemma {:induction false} SnapshotOf(records: seq<Book>, hashOf: Hasher, h: Book)
    ensures h in Snapshots(records, hashOf) <==>
      exists r <- records :: hashOf(r.filename).Some? && h == r.(contentHash := hashOf(r.filename).value)
    decreases |records|
  {
    if records != [] {
      var init, b := records[..|records| - 1], records[|records| - 1];
      SnapshotOf(init, hashOf, h);
      assert records == init + [b];
    }
  }

  /** Committing the snapshots of any records, however the books have changed since. */
  lemma LateCommit(books: Books, records: seq<Book>, hashOf: Hasher)
    ensures Backfilled(books, Snapshots(records, hashOf)) ==
            map id | id in books :: Late(records, hashOf, id, books[id])
  {
    hide Backfilled, Snapshots;
    var hashes := Snapshots(records, hashOf);
    BackfilledKeys(books, hashes);
    forall id | id in books
      ensures Backfilled(books, hashes)[id] == Late(records, hashOf, id, books[id])
    {
      BackfilledRecord(books, hashes, id);
      LateRecord(records, hashOf, id, books[id], Backfilled(books, hashes)[id]);
    }
  }

  lemma LateRecord(records: seq<Book>, hashOf: Hasher, id: string, was: Book, now: Book)
    requires FilledFrom(Snapshots(records, hashOf), id, was, now)
    ensures now == Late(records, hashOf, id, was)
  {
    hide Snapshots;
    var hashes := Snapshots(records, hashOf);
    if h :| h in hashes && StillFits(h, id, was) {
      if was.contentHash == "" {
        var i :| 0 <= i < |hashes| && FirstFit(hashes, id, was, i)
                 && now == was.(contentHash := hashes[i].contentHash);
        SnapshotOf(records, hashOf, hashes[i]);
      }
    } else if r :| r in records && r.id == id && r.userID == was.userID && r.filename == was.filename
                   && hashOf(r.filename).Some? {
      var h := r.(contentHash := hashOf(r.filename).value);
      SnapshotOf(records, hashOf, h);
      assert !StillFits(h, id, was);
    }
  }

  /** On any run, whatever is edited, uploaded, deleted or backfilled between the listing before
      transaction i and the commit j: the commit changes exactly the records that were listed, still have
      the owner and the file they were listed with and still have no hash, and gives them the hash of
      that file; it touches no progress record. */
  lemma EditsSurvive(l: Ledger, ops: seq<Op>, i: nat, j: nat, ids: set<string>, records: seq<Book>, hashOf: Hasher)
    requires i <= j < |ops| && ops[j] == Op.Backfill(Snapshots(records, hashOf))
    requires ListsOnce(records, After(l, ops[..i]).books, ids)
    ensures var listed, was, now := After(l, ops[..i]).books, After(l, ops[..j]), After(l, ops[..j + 1]);
            && now.progress == was.progress && now.books.Keys == was.books.Keys
            && forall id <- was.books ::
                 now.books[id] ==
                   if && id in ids && was.books[id].userID == listed[id].userID
                      && was.books[id].filename == listed[id].filename
                      && was.books[id].contentHash == "" && hashOf(listed[id].filename).Some?
                   then was.books[id].(contentHash := hashOf(listed[id].filename).value)
                   else was.books[id]
  {
    hide Snapshots, Backfilled;
    assert ops[..j + 1][..j] == ops[..j];
    LateCommit(After(l, ops[..j]).books, records, hashOf);
  }
}
