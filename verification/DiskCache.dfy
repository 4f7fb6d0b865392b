/** Cleaning up the audio files on disk (cleanupDiskTTSCache in backend/services/tts_cache.go). */
module DiskCache {
  datatype File = File(name: string, isDir: bool, size: nat, modTime: int)

  const EXTENSION: string := ".audio"

  /** filepath.Ext gives the text from the last dot on. */
  predicate IsAudio(f: File) {
    !f.isDir && |f.name| >= |EXTENSION| && f.name[|f.name| - |EXTENSION|..] == EXTENSION
  }

  predicate IsExpired(f: File, now: int, ttl: int) {
    now - f.modTime > ttl
  }

  function Fresh(listing: seq<File>, now: int, ttl: int): seq<File> {
    if listing == [] then []
    else
      var rest, f := Fresh(listing[..|listing| - 1], now, ttl), listing[|listing| - 1];
      if IsAudio(f) && !IsExpired(f, now, ttl) then rest + [f] else rest
  }

  function Stale(listing: seq<File>, now: int, ttl: int): seq<File> {
    if listing == [] then []
    else
      var rest, f := Stale(listing[..|listing| - 1], now, ttl), listing[|listing| - 1];
      if IsAudio(f) && IsExpired(f, now, ttl) then rest + [f] else rest
  }

  /** An audio file, by its name. */
  predicate NamedAudio(f: File) {
    !f.isDir && exists i :: 0 <= i <= |f.name| && f.name[i..] == ".audio"
  }

  lemma IsAudioIs(f: File)
    ensures IsAudio(f) <==> NamedAudio(f)
  {
    if IsAudio(f) {
      assert f.name[|f.name| - |EXTENSION|..] == ".audio";
    }
    if NamedAudio(f) {
      var i :| 0 <= i <= |f.name| && f.name[i..] == ".audio";
      assert |f.name| - i == |EXTENSION|;
    }
  }

  /** The pass over the directory divides its audio files, each as often as it is listed, by whether they
      are older than the time to live. */
  lemma {:induction false} Divided(listing: seq<File>, now: int, ttl: int)
    ensures forall f ::
      multiset(Stale(listing, now, ttl))[f] ==
        (if NamedAudio(f) && now - f.modTime > ttl then multiset(listing)[f] else 0)
    ensures forall f ::
      multiset(Fresh(listing, now, ttl))[f] ==
        (if NamedAudio(f) && now - f.modTime <= ttl then multiset(listing)[f] else 0)
  {
    hide NamedAudio, IsAudio;
    if listing != [] {
      var init, last := listing[..|listing| - 1], listing[|listing| - 1];
      assert listing == init + [last];
      Divided(init, now, ttl);
      IsAudioIs(last);
    }
  }

  function Size(files: seq<File>): nat {
    if files == [] then 0 else files[0].size + Size(files[1..])
  }

  predicate Fits(files: seq<File>, maxBytes: int, maxItems: int) {
    Size(files) <= maxBytes && |files| <= maxItems
  }

  predicate Ascending(files: seq<File>) {
    forall i, j :: 0 <= i < j < |files| ==> files[i].modTime <= files[j].modTime
  }

  lemma {:induction false} SizeSnoc(files: seq<File>, f: File)
    ensures Size(files + [f]) == Size(files) + f.size
    decreases |files|
  {
    if files == [] {
      assert ([] + [f])[1..] == [];
    } else {
      assert (files + [f])[1..] == files[1..] + [f];
      SizeSnoc(files[1..], f);
    }
  }

  lemma {:induction false} SizeAround(files: seq<File>, i: nat)
    requires i < |files|
    ensures Size(files) == files[i].size + Size(files[..i] + files[i + 1..])
    decreases |files|
  {
    if i == 0 {
      assert files[..0] + files[1..] == files[1..];
    } else {
      SizeAround(files[1..], i - 1);
      assert (files[..i] + files[i + 1..])[1..] == files[1..][..i - 1] + files[1..][i..];
    }
  }

  function InsertedAt(sorted: seq<File>, at: nat, f: File): seq<File>
    requires at <= |sorted|
  {
    sorted[..at] + [f] + sorted[at..]
  }

  lemma InsertedFiles(sorted: seq<File>, at: nat, f: File)
    requires at <= |sorted|
    ensures |InsertedAt(sorted, at, f)| == |sorted| + 1
    ensures multiset(InsertedAt(sorted, at, f)) == multiset(sorted) + multiset{f}
  {
    assert sorted == sorted[..at] + sorted[at..];
  }

  lemma InsertedSize(sorted: seq<File>, at: nat, f: File)
    requires at <= |sorted|
    ensures Size(InsertedAt(sorted, at, f)) == Size(sorted) + f.size
  {
    hide Size;
    var next := InsertedAt(sorted, at, f);
    SizeAround(next, at);
    assert next[..at] + next[at + 1..] == sorted;
  }

  lemma InsertedAscends(sorted: seq<File>, at: nat, f: File)
    requires at <= |sorted| && Ascending(sorted)
    requires at > 0 ==> sorted[at - 1].modTime <= f.modTime
    requires forall j :: at <= j < |sorted| ==> sorted[j].modTime > f.modTime
    ensures Ascending(InsertedAt(sorted, at, f))
  {
    var next := InsertedAt(sorted, at, f);
    assert forall j :: 0 <= j < at ==> next[j] == sorted[j];
    assert forall j :: at < j < |next| ==> next[j] == sorted[j - 1];
  }

  /** sort.Slice by modification time; files of the same time may come in any order. */
  method SortByTime(files: seq<File>) returns (sorted: seq<File>)
    ensures multiset(sorted) == multiset(files) && Ascending(sorted)
    ensures Size(sorted) == Size(files) && |sorted| == |files|
  {
    hide Ascending, Size, InsertedAt;
    sorted := [];
    assert Ascending([]) && files[..0] == [] by { InsertedNothing(); }
    for i := 0 to |files|
      invariant multiset(sorted) == multiset(files[..i]) && Ascending(sorted)
      invariant Size(sorted) == Size(files[..i]) && |sorted| == i
    {
      var f := files[i];
      var at := |sorted|;
      while at > 0 && sorted[at - 1].modTime > f.modTime
        invariant 0 <= at <= |sorted|
        invariant forall j :: at <= j < |sorted| ==> sorted[j].modTime > f.modTime
      {
        at := at - 1;
      }
      assert files[..i + 1] == files[..i] + [f];
      SizeSnoc(files[..i], f);
      InsertedFiles(sorted, at, f);
      InsertedSize(sorted, at, f);
      InsertedAscends(sorted, at, f);
      sorted := InsertedAt(sorted, at, f);
    }
    assert files[..|files|] == files;
  }

  lemma InsertedNothing()
    ensures Ascending([])
  {
  }

  /** The pass over the directory: stale files go, the others are collected. */
  method Survey(listing: seq<File>, now: int, ttl: int) returns (removed: seq<File>, files: seq<File>, total: int)
    ensures removed == Stale(listing, now, ttl) && files == Fresh(listing, now, ttl) && total == Size(files)
  {
    removed, files, total := [], [], 0;
    for i := 0 to |listing|
      invariant removed == Stale(listing[..i], now, ttl)
      invariant files == Fresh(listing[..i], now, ttl) && total == Size(files)
    {
      var f := listing[i];
      assert listing[..i + 1][..i] == listing[..i];
      if IsAudio(f) {
        if IsExpired(f, now, ttl) {
          removed := removed + [f];
        } else {
          SizeSnoc(files, f);
          total := total + f.size;
          files := files + [f];
        }
      }
    }
    assert listing[..|listing|] == listing;
  }

  /** The pass over the files by age: the shortest stretch of oldest ones goes. */
  method TrimOldest(sorted: seq<File>, size: int, maxBytes: int, maxItems: int) returns (n: nat)
    requires maxBytes >= 0 && maxItems >= 0 && size == Size(sorted)
    ensures n <= |sorted| && Fits(sorted[n..], maxBytes, maxItems)
    ensures forall m :: 0 <= m < n ==> !Fits(sorted[m..], maxBytes, maxItems)
  {
    var total, files := size, sorted;
    n := 0;
    while files != [] && !(total <= maxBytes && |files| <= maxItems)
      invariant n <= |sorted| && files == sorted[n..] && total == Size(files)
      invariant forall m :: 0 <= m < n ==> !Fits(sorted[m..], maxBytes, maxItems)
    {
      assert files[1..] == sorted[n + 1..];
      total := total - files[0].size;
      files := files[1..];
      n := n + 1;
    }
  }

  /** Removes what is older than the time to live, and then, if the rest exceeds a limit, the oldest
      files until it does not: sorted is the rest by age, and the shortest stretch of oldest files
      goes. */
  method Cleanup(listing: seq<File>, now: int, ttl: int, maxBytes: int, maxItems: int)
    returns (removed: seq<File>, kept: seq<File>, sorted: seq<File>)
    requires maxBytes >= 0 && maxItems >= 0
    ensures multiset(sorted) == multiset(Fresh(listing, now, ttl))
    ensures Size(kept) <= maxBytes && |kept| <= maxItems
    ensures forall f :: NamedAudio(f) ==> multiset(removed)[f] + multiset(kept)[f] == multiset(listing)[f]
    ensures forall f <- removed + kept :: f in listing && NamedAudio(f)
    ensures forall f <- kept :: now - f.modTime <= ttl
    ensures Size(Fresh(listing, now, ttl)) <= maxBytes && |Fresh(listing, now, ttl)| <= maxItems ==>
      forall f <- removed :: now - f.modTime > ttl
    ensures Fits(kept, maxBytes, maxItems)
    ensures removed + kept == Stale(listing, now, ttl) + sorted
    ensures Fits(Fresh(listing, now, ttl), maxBytes, maxItems) ==> kept == Fresh(listing, now, ttl)
    ensures !Fits(Fresh(listing, now, ttl), maxBytes, maxItems) ==> Ascending(sorted)
    ensures forall n :: 0 <= n < |sorted| - |kept| ==> !Fits(sorted[n..], maxBytes, maxItems)
  {
    hide Stale, Fresh, Ascending, NamedAudio, Size;
    var files, total;
    removed, files, total := Survey(listing, now, ttl);
    if total <= maxBytes && |files| <= maxItems {
      kept, sorted := files, files;
      Divides(listing, now, ttl, removed, kept);
      OnlyStale(listing, now, ttl);
      return;
    }
    sorted := SortByTime(files);
    var n := TrimOldest(sorted, total, maxBytes, maxItems);
    CutAt(removed, sorted, n);
    removed, kept := removed + sorted[..n], sorted[n..];
    Divides(listing, now, ttl, removed, kept);
  }

  lemma CutAt(stale: seq<File>, sorted: seq<File>, n: nat)
    requires n <= |sorted|
    ensures stale + sorted[..n] + sorted[n..] == stale + sorted
    ensures multiset(stale + sorted[..n]) + multiset(sorted[n..]) == multiset(stale) + multiset(sorted)
    ensures multiset(sorted[n..]) <= multiset(sorted)
  {
    assert sorted == sorted[..n] + sorted[n..];
  }

  lemma OnlyStale(listing: seq<File>, now: int, ttl: int)
    ensures forall f <- Stale(listing, now, ttl) :: now - f.modTime > ttl
  {
    hide NamedAudio, Stale, Fresh;
    Divided(listing, now, ttl);
    forall f | f in Stale(listing, now, ttl) ensures now - f.modTime > ttl {
      assert multiset(Stale(listing, now, ttl))[f] > 0;
    }
  }

  lemma Divides(listing: seq<File>, now: int, ttl: int, removed: seq<File>, kept: seq<File>)
    requires multiset(removed) + multiset(kept) ==
             multiset(Stale(listing, now, ttl)) + multiset(Fresh(listing, now, ttl))
    requires multiset(kept) <= multiset(Fresh(listing, now, ttl))
    ensures forall f :: NamedAudio(f) ==> multiset(removed)[f] + multiset(kept)[f] == multiset(listing)[f]
    ensures forall f <- removed + kept :: f in listing && NamedAudio(f)
    ensures forall f <- kept :: now - f.modTime <= ttl
  {
    hide NamedAudio, Stale, Fresh;
    Divided(listing, now, ttl);
    var both := multiset(removed) + multiset(kept);
    forall f ensures both[f] == if NamedAudio(f) then multiset(listing)[f] else 0 {
    }
    forall f | f in removed + kept ensures f in listing && NamedAudio(f) {
      assert f in multiset(removed) || f in multiset(kept);
      assert both[f] > 0;
    }
    forall f | f in kept ensures now - f.modTime <= ttl {
      assert multiset(Fresh(listing, now, ttl))[f] > 0;
    }
  }

  /** Whatever goes for lack of room is no newer than whatever stays. */
  lemma OldestGo(sorted: seq<File>, n: nat, gone: File, stays: File)
    requires Ascending(sorted) && n <= |sorted| && gone in sorted[..n] && stays in sorted[n..]
    ensures gone.modTime <= stays.modTime
  {
    var i :| 0 <= i < n && sorted[i] == gone;
    var j :| n <= j < |sorted| && sorted[j] == stays;
  }
}
