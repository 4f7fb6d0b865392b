/** Books, reading progress and the keys of the derived buckets
    (backend/models/book.go, backend/storage/db.go, backend/storage/library_indexes.go). */
module Library {
  import opened Wrappers
  import opened ByteOrder
  import opened Text
  import opened Clock
  import Base64

  datatype Book = Book(
    id: string, userID: string, title: string, author: string, filename: string, format: string,
    size: int, contentHash: string, coverPath: string, coverThumbPath: string,
    processingState: string, category: Option<string>, createdAt: Instant, lastReadAt: Option<Instant>)

  datatype Progress = Progress(
    bookID: string, userID: string, cfi: string, percentage: real, deviceID: string, updatedAt: Instant)

  /** Identifiers are UUIDs; what matters is that no key separator and no
      whitespace occurs in them. A legacy book may have no owner. */
  predicate IsOwner(u: string) {
    forall c <- u :: c != '\0' && c != ':' && !IsSpace(c)
  }

  predicate IsId(s: string) {
    s != "" && IsOwner(s)
  }

  /** What every record in the store satisfies, whoever wrote it. */
  predicate IsBook(b: Book) {
    IsId(b.id) && IsOwner(b.userID) && !HasNul(b.contentHash)
  }

  type Books = map<string, Book>

  ghost predicate WellKeyed(books: Books) {
    forall id <- books :: books[id].id == id && IsBook(books[id])
  }

  // ---- categories ----

  /** normalizeCategoryName. */
  function NormalizeCategory(c: Option<string>): Option<string> {
    match c
    case None => None
    case Some(name) => if TrimSpace(name) == "" then None else Some(TrimSpace(name))
  }

  /** categoryForBook; the empty string stands for uncategorized. */
  function CategoryOf(b: Book): string {
    match b.category
    case None => ""
    case Some(name) => TrimSpace(name)
  }

  /** What is stored for a category: the name without the white space around it, and nothing for a
      name that is missing or all white space. */
  ghost predicate StoredAs(given: Option<string>, stored: Option<string>) {
    match given
    case None => stored == None
    case Some(name) =>
      if stored.None? then AllSpace(name) else stored.value != "" && IsAround(name, stored.value)
  }

  lemma NormalizeCategoryIs(given: Option<string>, stored: Option<string>)
    ensures NormalizeCategory(given) == stored <==> StoredAs(given, stored)
  {
    hide TrimSpace, IsAround;
    if given.Some? {
      TrimSpaceIs(given.value, "");
      AroundNothing(given.value);
      if stored.Some? { TrimSpaceIs(given.value, stored.value); }
    }
  }

  lemma AroundNothing(s: string)
    ensures IsAround(s, "") <==> AllSpace(s)
  {
    if AllSpace(s) {
      assert AllSpace("") && s == s + "" + "";
    }
  }

  lemma CategoryOfIs(b: Book, c: string)
    ensures CategoryOf(b) == c <==> if b.category.None? then c == "" else IsAround(b.category.value, c)
  {
    hide TrimSpace, IsAround;
    if b.category.Some? { TrimSpaceIs(b.category.value, c); }
  }

  // ---- shelf orders ----

  datatype BookSort = RecentRead | RecentAdded | Title | Author {
    function Name(): string {
      match this
      case RecentRead => "recent_read"
      case RecentAdded => "recent_added"
      case Title => "title"
      case Author => "author"
    }
  }

  const SUPPORTED_SORTS: seq<BookSort> := [RecentRead, RecentAdded, Title, Author]

  function NormalizeBookSort(s: string): (r: BookSort)
    ensures r.Name() == s || r == RecentRead
  {
    if s == "title" then Title
    else if s == "author" then Author
    else if s == "recent_added" then RecentAdded
    else RecentRead
  }

  /** The four supported names stand for themselves, and every other one for recent_read. */
  lemma SortNamed(s: string)
    ensures NormalizeBookSort(s).Name() ==
      if s in {"title", "author", "recent_added", "recent_read"} then s else "recent_read"
    ensures NormalizeBookSort(s).Title? <==> s == "title"
    ensures NormalizeBookSort(s).Author? <==> s == "author"
    ensures NormalizeBookSort(s).RecentAdded? <==> s == "recent_added"
  {
  }

  function SortText(lower: Lowering, s: string): (r: string)
    ensures !HasNul(r)
  {
    RemoveNul(ToLower(lower, TrimSpace(s)))
  }

  function LastRead(b: Book): Instant {
    if b.lastReadAt.Some? then b.lastReadAt.value else b.createdAt
  }

  /** bookSortValue. */
  function SortValue(lower: Lowering, b: Book, s: BookSort): (r: string)
    ensures !HasNul(r)
  {
    match s
    case Title => SortText(lower, b.title)
    case Author => SortText(lower, b.author)
    case RecentAdded => InvertedTimestamp(b.createdAt)
    case RecentRead => InvertedTimestamp(LastRead(b))
  }

  /** The shelf order itself, without any key: titles and authors ascending,
      times newest first, ties by id. */
  ghost predicate Precedes(lower: Lowering, s: BookSort, a: Book, b: Book) {
    var (less, equal) := match s
      case Title => (Before(SortText(lower, a.title), SortText(lower, b.title)),
                     SortText(lower, a.title) == SortText(lower, b.title))
      case Author => (Before(SortText(lower, a.author), SortText(lower, b.author)),
                      SortText(lower, a.author) == SortText(lower, b.author))
      case RecentAdded => (Clamped(a.createdAt) > Clamped(b.createdAt),
                           Clamped(a.createdAt) == Clamped(b.createdAt))
      case RecentRead => (Clamped(LastRead(a)) > Clamped(LastRead(b)),
                          Clamped(LastRead(a)) == Clamped(LastRead(b)));
    less || (equal && Before(a.id, b.id))
  }

  function Later(s: Instant, t: Instant): Instant {
    if s < t then t else s
  }

  /** What the orders mean: titles and authors by their trimmed lower-case text, times from the newest
      on, where a time before 1970 counts as 1970, and books that tie by identifier. */
  lemma ShelfOrders(lower: Lowering, a: Book, b: Book)
    requires IsLowering(lower)
    ensures Precedes(lower, RecentAdded, a, b) <==>
      || Later(0, a.createdAt) > Later(0, b.createdAt)
      || (Later(0, a.createdAt) == Later(0, b.createdAt) && Before(a.id, b.id))
    ensures a.lastReadAt.Some? && b.lastReadAt.Some? ==>
      var s, t := Later(0, a.lastReadAt.value), Later(0, b.lastReadAt.value);
      Precedes(lower, RecentRead, a, b) <==> s > t || (s == t && Before(a.id, b.id))
    ensures a.lastReadAt.None? && b.lastReadAt.Some? ==>
      var s, t := Later(0, a.createdAt), Later(0, b.lastReadAt.value);
      && (Precedes(lower, RecentRead, a, b) <==> s > t || (s == t && Before(a.id, b.id)))
      && (Precedes(lower, RecentRead, b, a) <==> t > s || (s == t && Before(b.id, a.id)))
    ensures a.lastReadAt.None? && b.lastReadAt.None? ==>
      (Precedes(lower, RecentRead, a, b) <==> Precedes(lower, RecentAdded, a, b))
    ensures forall x, y :: IsAround(a.title, x) && IsAround(b.title, y) && '\0' !in x && '\0' !in y ==>
      (Precedes(lower, Title, a, b) <==>
       Before(ToLower(lower, x), ToLower(lower, y))
       || (ToLower(lower, x) == ToLower(lower, y) && Before(a.id, b.id)))
    ensures forall x, y :: IsAround(a.author, x) && IsAround(b.author, y) && '\0' !in x && '\0' !in y ==>
      (Precedes(lower, Author, a, b) <==>
       Before(ToLower(lower, x), ToLower(lower, y))
       || (ToLower(lower, x) == ToLower(lower, y) && Before(a.id, b.id)))
  {
    hide TrimSpace, IsAround, Before, ToLower;
    forall s, x | IsAround(s, x) && '\0' !in x ensures SortText(lower, s) == ToLower(lower, x) {
      TrimSpaceIs(s, x);
      LowerNoNul(lower, x);
    }
  }

  lemma LowerNoNul(lower: Lowering, x: string)
    requires IsLowering(lower) && '\0' !in x
    ensures '\0' !in ToLower(lower, x)
  {
    forall i | 0 <= i < |x| ensures ToLower(lower, x)[i] != '\0' {
      assert x[i] in x;
    }
  }

  // ---- keys ----

  /** A key that ends in the identifier of the book it stands for. */
  function KeyFor(prefix: string, id: string): string {
    prefix + NUL + id
  }

  function SortPrefix(user: string, s: BookSort): string {
    s.Name() + NUL + user + NUL
  }

  function CategoryPrefix(user: string, category: string, s: BookSort): string {
    s.Name() + NUL + user + NUL + Base64.CategoryTag(TrimSpace(category)) + NUL
  }

  function SortIndexKey(lower: Lowering, b: Book, s: BookSort): string {
    KeyFor(SortPrefix(b.userID, s) + SortValue(lower, b, s), b.id)
  }

  function CategoryIndexKey(lower: Lowering, b: Book, s: BookSort): string {
    KeyFor(CategoryPrefix(b.userID, CategoryOf(b), s) + SortValue(lower, b, s), b.id)
  }

  function OwnerKey(user: string, id: string): string {
    user + ":" + id
  }

  function SearchKey(user: string, id: string): string {
    KeyFor(user, id)
  }

  function GramPrefix(user: string, gram: string): string {
    user + NUL + gram + NUL
  }

  function GramKey(user: string, gram: string, id: string): string {
    KeyFor(user + NUL + gram, id)
  }

  function ContentKey(user: string, hash: string): string {
    user + NUL + hash
  }

  function MemberKey(b: Book): string {
    KeyFor(ContentKey(b.userID, b.contentHash), b.id)
  }

  /** The layout of the keys, component by component. */
  lemma KeyLayouts(lower: Lowering, b: Book, s: BookSort, gram: string)
    ensures SortIndexKey(lower, b, s) == s.Name() + "\0" + b.userID + "\0" + SortValue(lower, b, s) + "\0" + b.id
    ensures CategoryIndexKey(lower, b, s) == s.Name() + "\0" + b.userID + "\0" +
              Base64.CategoryTag(CategoryOf(b)) + "\0" + SortValue(lower, b, s) + "\0" + b.id
    ensures GramKey(b.userID, gram, b.id) == b.userID + "\0" + gram + "\0" + b.id
    ensures MemberKey(b) == b.userID + "\0" + b.contentHash + "\0" + b.id
    ensures SearchKey(b.userID, b.id) == b.userID + "\0" + b.id && OwnerKey(b.userID, b.id) == b.userID + ":" + b.id
  {
    hide SortValue, BookSort.Name;
    if b.category.Some? { TrimIdempotent(b.category.value); }
    assert TrimSpace(CategoryOf(b)) == CategoryOf(b);
  }

  /** bookSearchValue. */
  function SearchText(lower: Lowering, b: Book): (r: string)
    ensures !HasNul(r)
  {
    var category := if b.category.Some? then b.category.value else "";
    Normalize(lower, b.title + " " + b.author + " " + b.filename + " " + b.format + " " + category)
  }

  /** The category of a book as it is searched: as stored, with nothing for none. */
  function CategoryText(b: Book): string {
    if b.category.Some? then b.category.value else ""
  }

  /** The searched words of a book are those of its title, author, file name, format and category, in
      that order, and no others. */
  lemma SearchTextWords(lower: Lowering, b: Book)
    requires IsLowering(lower)
    ensures SearchText(lower, b) == JoinWords(
      CleanWords(lower, Fields(b.title)) + CleanWords(lower, Fields(b.author)) + CleanWords(lower, Fields(b.filename))
      + CleanWords(lower, Fields(b.format)) + CleanWords(lower, Fields(CategoryText(b))))
  {
    hide IsLowering, Fields, CleanWords, JoinWords, Normalize;
    var t1 := b.title + " " + b.author;
    var t2 := t1 + " " + b.filename;
    var t3 := t2 + " " + b.format;
    NormalizeWords(lower, t3 + " " + CategoryText(b));
    WordsSnoc(lower, b.title, b.author);
    WordsSnoc(lower, t1, b.filename);
    WordsSnoc(lower, t2, b.format);
    WordsSnoc(lower, t3, CategoryText(b));
  }

  lemma WordsSnoc(lower: Lowering, s: string, t: string)
    ensures CleanWords(lower, Fields(s + " " + t)) == CleanWords(lower, Fields(s)) + CleanWords(lower, Fields(t))
  {
    FieldsConcat(s, ' ', t);
    CleanConcat(lower, Fields(s), Fields(t));
  }

  /** Whatever of a book is asked for in full, its search text has it. */
  lemma FieldIsSearched(lower: Lowering, b: Book, field: string)
    requires IsLowering(lower)
    requires field in {b.title, b.author, b.filename, b.format, CategoryText(b)}
    ensures Contains(SearchText(lower, b), Normalize(lower, field))
  {
    hide IsLowering, Fields, CleanWords, JoinWords, Normalize, SearchText, Contains;
    SearchTextWords(lower, b);
    NormalizeWords(lower, field);
    var title, author := CleanWords(lower, Fields(b.title)), CleanWords(lower, Fields(b.author));
    var filename, format := CleanWords(lower, Fields(b.filename)), CleanWords(lower, Fields(b.format));
    var category := CleanWords(lower, Fields(CategoryText(b)));
    if field == b.title {
      JoinedPart([], title, author + filename + format + category);
      assert [] + title + (author + filename + format + category) == title + author + filename + format + category;
    } else if field == b.author {
      JoinedPart(title, author, filename + format + category);
      assert title + author + (filename + format + category) == title + author + filename + format + category;
    } else if field == b.filename {
      JoinedPart(title + author, filename, format + category);
      assert title + author + filename + (format + category) == title + author + filename + format + category;
    } else if field == b.format {
      JoinedPart(title + author + filename, format, category);
    } else {
      JoinedPart(title + author + filename + format, category, []);
      assert title + author + filename + format + category + [] == title + author + filename + format + category;
    }
  }

  predicate Listed(b: Book) {
    b.userID != "" && b.id != ""
  }

  lemma CutAt(x: string, c: char, i: string)
    ensures var s := x + [c] + i; s[|x|] == c && s[..|x|] == x && s[|x| + 1..] == i
  {
  }

  /** Behind the last separator there is none. */
  lemma NoneBehind(x: string, c: char, i: string)
    requires c !in i
    ensures forall m :: |x| < m <= |x| + |i| ==> (x + [c] + i)[m] != c
  {
    forall m | |x| < m <= |x| + |i| ensures (x + [c] + i)[m] != c {
      assert (x + [c] + i)[m] == i[m - |x| - 1] && i[m - |x| - 1] in i;
    }
  }

  /** Before the first one neither. */
  lemma NoneBefore(x: string, c: char, r: string)
    requires c !in x
    ensures forall m :: 0 <= m < |x| ==> (x + [c] + r)[m] != c
  {
    forall m | 0 <= m < |x| ensures (x + [c] + r)[m] != c {
      assert (x + [c] + r)[m] == x[m] && x[m] in x;
    }
  }

  /** Cutting a key at its last separator gives back prefix and identifier. */
  lemma LastComponent(x: string, y: string, c: char, i: string, j: string)
    requires c !in i && c !in j
    requires x + [c] + i == y + [c] + j
    ensures x == y && i == j
  {
    CutAt(x, c, i);
    CutAt(y, c, j);
    NoneBehind(x, c, i);
    NoneBehind(y, c, j);
    var s := x + [c] + i;
    assert |s| == |x| + 1 + |i| == |y| + 1 + |j| && s[|x|] == s[|y|] == c;
    assert |x| == |y|;
  }

  /** Cutting at the first separator likewise. */
  lemma FirstComponent(x: string, y: string, c: char, r: string, t: string)
    requires c !in x && c !in y
    requires x + [c] + r == y + [c] + t
    ensures x == y && r == t
  {
    CutAt(x, c, r);
    CutAt(y, c, t);
    NoneBefore(x, c, r);
    NoneBefore(y, c, t);
    var s := x + [c] + r;
    assert s[|x|] == s[|y|] == c;
    assert |x| == |y|;
  }

  lemma SortNamesDiffer(s: BookSort, t: BookSort)
    ensures !HasNul(s.Name())
    ensures s.Name() == t.Name() ==> s == t
  {
  }

  /** SortIndexKey orders one owner's books as Precedes does: keys of NUL-joined
      components compare like tuples, and inverted times compare backwards. */
  lemma SortKeyOrder(lower: Lowering, a: Book, b: Book, s: BookSort)
    requires a.userID == b.userID
    ensures Before(SortIndexKey(lower, a, s), SortIndexKey(lower, b, s)) <==> Precedes(lower, s, a, b)
  {
    ValueOrder(lower, SortPrefix(a.userID, s), a, b, s);
  }

  lemma CategoryKeyOrder(lower: Lowering, a: Book, b: Book, s: BookSort)
    requires a.userID == b.userID && CategoryOf(a) == CategoryOf(b)
    ensures Before(CategoryIndexKey(lower, a, s), CategoryIndexKey(lower, b, s)) <==> Precedes(lower, s, a, b)
  {
    ValueOrder(lower, CategoryPrefix(a.userID, CategoryOf(a), s), a, b, s);
  }

  lemma ValueOrder(lower: Lowering, p: string, a: Book, b: Book, s: BookSort)
    ensures Before(KeyFor(p + SortValue(lower, a, s), a.id), KeyFor(p + SortValue(lower, b, s), b.id))
            <==> Precedes(lower, s, a, b)
  {
    hide SortValue, Precedes;
    var v, w := SortValue(lower, a, s), SortValue(lower, b, s);
    assert KeyFor(p + v, a.id) == p + (v + NUL + a.id);
    assert KeyFor(p + w, b.id) == p + (w + NUL + b.id);
    BeforePrefix(p, v + NUL + a.id, w + NUL + b.id);
    BeforeJoined(v, a.id, w, b.id);
    PrecedesByValue(lower, s, a, b);
  }

  lemma PrecedesByValue(lower: Lowering, s: BookSort, a: Book, b: Book)
    ensures var v, w := SortValue(lower, a, s), SortValue(lower, b, s);
            Precedes(lower, s, a, b) <==> (Before(v, w) || (v == w && Before(a.id, b.id)))
  {
    hide SortText, Before, InvertedTimestamp, LastRead;
    if s == RecentAdded { InvertedOrder(a.createdAt, b.createdAt); }
    if s == RecentRead { InvertedOrder(LastRead(a), LastRead(b)); }
  }

  // ---- who is on which shelf ----

  /** Selecting None takes the whole library of a user, Some("") the uncategorized books. */
  predicate OnShelf(b: Book, user: string, category: Option<string>) {
    b.userID == user && (category.Some? ==> CategoryOf(b) == category.value)
  }
}
