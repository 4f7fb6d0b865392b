/** Listing reading progress, whole or since an instant (backend/storage/db.go). */
module ProgressSync {
  import opened Wrappers
  import opened ByteOrder
  import opened Text
  import opened Clock
  import opened Library
  import opened Indexes
  import opened Store

  predicate NotBefore(p: Progress, since: Option<Instant>) {
    since.Some? ==> p.updatedAt >= since.value
  }

  /** The list holds exactly the user's records at or after the instant, each once. */
  ghost predicate ListsProgress(progress: ProgressBucket, user: string, since: Option<Instant>, items: seq<Progress>) {
    && (forall p <- items ::
          OwnerKey(user, p.bookID) in progress && progress[OwnerKey(user, p.bookID)] == p
          && p.userID == user && NotBefore(p, since))
    && (forall k <- progress :: progress[k].userID == user && NotBefore(progress[k], since) ==> progress[k] in items)
    && (forall i, j :: 0 <= i < j < |items| ==> items[i].bookID != items[j].bookID)
  }

  /** Oldest first, as the time index stores them. */
  ghost predicate OldestFirst(items: seq<Progress>) {
    forall i, j :: 0 <= i < j < |items| ==> Clamped(items[i].updatedAt) <= Clamped(items[j].updatedAt)
  }

  /** A key under a user's prefix stands for one record of that user. */
  lemma TimeEntry(progress: ProgressBucket, index: Bucket, user: string, t: string)
    requires ProgressKeyed(progress) && TimeExact(progress, index) && IsId(user)
    requires t in index && ProgressTimePrefix(user) <= t
    ensures var k := OwnerKey(user, index[t]);
            k in progress && progress[k].userID == user && progress[k].bookID == index[t] && t == TimeKey(progress[k])
  {
    hide Digits, Clamped, IsOwner;
    var k :| k in progress && Timed(progress[k]) && t == TimeKey(progress[k]);
    hide TimeExact;
    OwnerNoNul(user);
    OwnerNoNul(progress[k].userID);
    var p := progress[k];
    var x := Digits19(Clamped(p.updatedAt)) + NUL + p.bookID;
    var rest := t[|user| + 1..];
    assert t == user + NUL + rest;
    assert t == p.userID + NUL + x;
    BeforeJoined(user, rest, p.userID, x);
  }

  lemma OwnerNoNul(u: string)
    requires IsOwner(u)
    ensures !HasNul(u)
  {
  }

  lemma TimeOrder(p: Progress, q: Progress)
    requires p.userID == q.userID
    ensures Before(TimeKey(p), TimeKey(q)) <==>
      Clamped(p.updatedAt) < Clamped(q.updatedAt)
      || (Clamped(p.updatedAt) == Clamped(q.updatedAt) && Before(p.bookID, q.bookID))
  {
    hide Clamped, Digits;
    var x, y := Digits19(Clamped(p.updatedAt)), Digits19(Clamped(q.updatedAt));
    assert TimeKey(p) == ProgressTimePrefix(p.userID) + (x + NUL + p.bookID);
    assert TimeKey(q) == ProgressTimePrefix(q.userID) + (y + NUL + q.bookID);
    DigitsNoNul(Clamped(p.updatedAt));
    DigitsNoNul(Clamped(q.updatedAt));
    BeforePrefix(ProgressTimePrefix(p.userID), x + NUL + p.bookID, y + NUL + q.bookID);
    BeforeJoined(x, p.bookID, y, q.bookID);
    TimeKeyOrder(Clamped(p.updatedAt), Clamped(q.updatedAt));
  }

  lemma DigitsNoNul(n: nat)
    ensures !HasNul(Digits19(n))
  {
  }

  function Probe(user: string, since: Instant): Progress {
    Progress("", user, "", 0.0, "", since)
  }

  /** The seek position is not behind any record at or after the instant. */
  lemma SeekReaches(p: Progress, since: Instant)
    requires p.updatedAt >= since && p.bookID != ""
    ensures !Before(TimeKey(p), TimeKey(Probe(p.userID, since))) && ProgressTimePrefix(p.userID) <= TimeKey(p)
    ensures ProgressTimePrefix(p.userID) <= TimeKey(Probe(p.userID, since))
  {
    TimeOrder(p, Probe(p.userID, since));
  }

  ghost predicate ListedSoFar(db: DB, user: string, since: Instant, keys: seq<string>, items: seq<Progress>)
    reads db
  {
    && (forall p <- items ::
          OwnerKey(user, p.bookID) in db.progress && db.progress[OwnerKey(user, p.bookID)] == p
          && p.userID == user && p.updatedAt >= since && TimeKey(p) in keys)
    && (forall k <- db.progress ::
          db.progress[k].userID == user && db.progress[k].updatedAt >= since && TimeKey(db.progress[k]) in keys ==>
            db.progress[k] in items)
    && (forall i, j :: 0 <= i < j < |items| ==> Before(TimeKey(items[i]), TimeKey(items[j])))
  }

  lemma ListOne(db: DB, user: string, since: Instant, keys: seq<string>, items: seq<Progress>, p: Progress)
    requires ListedSoFar(db, user, since, keys, items) && ProgressKeyed(db.progress)
    requires OwnerKey(user, p.bookID) in db.progress && db.progress[OwnerKey(user, p.bookID)] == p && p.userID == user
    requires forall k <- keys :: Before(k, TimeKey(p))
    ensures ListedSoFar(db, user, since, keys + [TimeKey(p)], if p.updatedAt >= since then items + [p] else items)
  {
    hide TimeKey, OwnerKey, Before, IsOwner;
    forall k | k in db.progress && TimeKey(db.progress[k]) == TimeKey(p) ensures db.progress[k] == p {
      TimeKeysDiffer(db.progress[k], p);
    }
    var items' := items + [p];
    forall i, j | 0 <= i < j < |items'| ensures Before(TimeKey(items'[i]), TimeKey(items'[j])) {
      assert items'[i] == items[i] && items[i] in items;
    }
  }

  lemma NothingListed(db: DB, user: string, since: Instant)
    ensures ListedSoFar(db, user, since, [], [])
  {
  }

  /** At the end of the scan the list is complete. */
  lemma AllListed(db: DB, user: string, since: Instant, n: nat, items: seq<Progress>)
    requires db.Exact() && IsId(user)
    requires var visited := SeekFrom(db.progressTime.Keys, TimeKey(Probe(user, since)));
             && n <= |visited| && (n < |visited| ==> !(ProgressTimePrefix(user) <= visited[n]))
             && ListedSoFar(db, user, since, visited[..n], items)
    ensures ListsProgress(db.progress, user, Some(since), items) && OldestFirst(items)
  {
    hide IsLowering, Indexed, TimeKey, OwnerKey, Before, Sorted, ProgressTimePrefix, Clamped;
    forall k | k in db.progress && db.progress[k].userID == user && db.progress[k].updatedAt >= since
      ensures db.progress[k] in items
    {
      var p := db.progress[k];
      SeekReaches(p, since);
      ScanCovers(db.progressTime.Keys, TimeKey(Probe(user, since)), ProgressTimePrefix(user), n, TimeKey(p));
    }
    forall i, j | 0 <= i < j < |items|
      ensures items[i].bookID != items[j].bookID && Clamped(items[i].updatedAt) <= Clamped(items[j].updatedAt)
    {
      assert items[i] in items && items[j] in items;
      TimeOrder(items[i], items[j]);
      BeforeIrreflexive(TimeKey(items[i]));
    }
  }

  /** The user's records at or after an instant, from the time index. */
  method ListProgressUpdatedSince(db: DB, user: string, since: Option<Instant>) returns (items: seq<Progress>)
    requires db.Exact() && IsId(user)
    ensures ListsProgress(db.progress, user, since, items)
    ensures since.Some? ==> OldestFirst(items)
    ensures since.Some? ==> forall i, j :: 0 <= i < j < |items| && items[j].updatedAt >= 0 ==>
      items[i].updatedAt <= items[j].updatedAt
  {
    hide IsLowering, Indexed, ProgressKeyed, TimeExact, TimeKey, OwnerKey, Before, ListedSoFar, ListsProgress,
         OldestFirst, IsOwner;
    if since == None {
      items := ListProgress(db, user);
      return;
    }
    var prefix, start := ProgressTimePrefix(user), TimeKey(Probe(user, since.value));
    var visited := SeekFrom(db.progressTime.Keys, start);
    items := [];
    NothingListed(db, user, since.value);
    assert visited[..0] == [];
    var i := 0;
    while i < |visited| && prefix <= visited[i]
      invariant 0 <= i <= |visited|
      invariant ListedSoFar(db, user, since.value, visited[..i], items)
    {
      var t := visited[i];
      assert t in visited;
      TimeEntry(db.progress, db.progressTime, user, t);
      EarlierKeys(visited, i);
      var key := OwnerKey(user, db.progressTime[t]);
      ListOne(db, user, since.value, visited[..i], items, db.progress[key]);
      assert visited[..i + 1] == visited[..i] + [t];
      i := i + 1;
      if key !in db.progress { continue; }
      var p := db.progress[key];
      if p.userID == user && p.updatedAt >= since.value {
        items := items + [p];
      }
    }
    AllListed(db, user, since.value, i, items);
    OldestFirstIs(items);
  }

  /** From 1970 on, the order of the records is that of their times. */
  lemma OldestFirstIs(items: seq<Progress>)
    requires OldestFirst(items)
    ensures forall i, j :: 0 <= i < j < |items| && items[j].updatedAt >= 0 ==>
      items[i].updatedAt <= items[j].updatedAt
  {
  }

  lemma EarlierKeys(visited: seq<string>, i: nat)
    requires Sorted(visited) && i < |visited|
    ensures forall k <- visited[..i] :: Before(k, visited[i])
  {
    hide Before;
  }

  /** All records of a user. */
  method ListProgress(db: DB, user: string) returns (items: seq<Progress>)
    requires db.Exact() && IsId(user)
    ensures ListsProgress(db.progress, user, None, items)
  {
    hide IsLowering, Indexed, TimeExact, OwnerKey, Before, IsOwner, Sorted, SeekFrom;
    var prefix := user + ":";
    var visited := SeekFrom(db.progress.Keys, prefix);
    items := [];
    var i := 0;
    while i < |visited| && prefix <= visited[i]
      invariant 0 <= i <= |visited| && |items| == i
      invariant forall j :: 0 <= j < i ==>
        && visited[j] in db.progress && items[j] == db.progress[visited[j]]
        && items[j].userID == user && OwnerKey(user, items[j].bookID) == visited[j]
    {
      var k := visited[i];
      assert k in visited;
      OwnerUnderPrefix(db.progress, user, k);
      i := i + 1;
      var p := db.progress[k];
      if p.userID == user {
        items := items + [p];
      }
    }
    forall k | k in db.progress && db.progress[k].userID == user ensures db.progress[k] in items {
      PrefixOfOwner(user, db.progress[k].bookID);
      PrefixNotAfter(prefix, k);
      if Before(k, prefix) { BeforeAsymmetric(k, prefix); }
      BeforeIrreflexive(k);
      ScanCovers(db.progress.Keys, prefix, prefix, i, k);
      var j :| 0 <= j < i && visited[..i][j] == k;
      assert items[j] == db.progress[k];
    }
    forall a, b | 0 <= a < b < |items| ensures items[a].bookID != items[b].bookID {
      EarlierKeys(visited, b);
      assert visited[a] in visited[..b];
      BeforeIrreflexive(visited[a]);
    }
  }

  lemma PrefixOfOwner(user: string, id: string)
    ensures user + ":" <= OwnerKey(user, id)
  {
  }

  /** Owners contain no colon, so a key under "user:" is that user's. */
  lemma OwnerUnderPrefix(progress: ProgressBucket, user: string, k: string)
    requires ProgressKeyed(progress) && IsId(user) && k in progress && user + ":" <= k
    ensures progress[k].userID == user && OwnerKey(user, progress[k].bookID) == k
  {
    var p, rest := progress[k], k[|user| + 1..];
    assert k == user + ":" + rest;
    FirstComponent(user, p.userID, ':', rest, p.bookID);
  }
}
