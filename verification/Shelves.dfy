/** The lists a reader sees, defined from the books alone: a shelf in its order, the
    matches of a query on it, one page, and the walk along the pages. */
module Shelves {
  import opened Wrappers
  import opened ByteOrder
  import opened Text
  import opened Library
  import opened Indexes

  /** Among these books, this one comes first. */
  ghost predicate ComesFirst(lower: Lowering, books: Books, s: BookSort, ids: set<string>, id: string) {
    ids <= books.Keys && id in ids && forall o <- ids :: o == id || Precedes(lower, s, books[id], books[o])
  }

  /** A key that orders books of different owners too, by (value, id). */
  function RankKey(lower: Lowering, s: BookSort, b: Book): string {
    KeyFor("" + SortValue(lower, b, s), b.id)
  }

  lemma {:induction false} SomeoneComesFirst(lower: Lowering, books: Books, s: BookSort, ids: set<string>)
    requires WellKeyed(books) && ids <= books.Keys && ids != {}
    ensures exists id :: ComesFirst(lower, books, s, ids, id)
  {
    hide Precedes, RankKey, IsOwner;
    var id :| id in ids;
    if ids == {id} {
      assert ComesFirst(lower, books, s, ids, id);
    } else {
      SomeoneComesFirst(lower, books, s, ids - {id});
      var m :| ComesFirst(lower, books, s, ids - {id}, m);
      NoSeparators(books[id]);
      NoSeparators(books[m]);
      PrecedesTotal(lower, s, books[id], books[m]);
      if Precedes(lower, s, books[id], books[m]) {
        forall o | o in ids && o != id ensures Precedes(lower, s, books[id], books[o]) {
          if o != m { PrecedesTransitive(lower, s, books[id], books[m], books[o]); }
        }
        assert ComesFirst(lower, books, s, ids, id);
      } else {
        assert ComesFirst(lower, books, s, ids, m);
      }
    }
  }

  lemma RankOrder(lower: Lowering, s: BookSort, a: Book, b: Book)
    ensures Precedes(lower, s, a, b) <==> Before(RankKey(lower, s, a), RankKey(lower, s, b))
  {
    ValueOrder(lower, "", a, b, s);
  }

  lemma PrecedesTotal(lower: Lowering, s: BookSort, a: Book, b: Book)
    requires !HasNul(a.id) && !HasNul(b.id) && a.id != b.id
    ensures Precedes(lower, s, a, b) || Precedes(lower, s, b, a)
  {
    hide Precedes, SortValue;
    RankOrder(lower, s, a, b);
    RankOrder(lower, s, b, a);
    if RankKey(lower, s, a) == RankKey(lower, s, b) {
      LastComponent("" + SortValue(lower, a, s), "" + SortValue(lower, b, s), '\0', a.id, b.id);
    }
    BeforeTotal(RankKey(lower, s, a), RankKey(lower, s, b));
  }

  lemma PrecedesTransitive(lower: Lowering, s: BookSort, a: Book, b: Book, c: Book)
    requires Precedes(lower, s, a, b) && Precedes(lower, s, b, c)
    ensures Precedes(lower, s, a, c)
  {
    hide Precedes, RankKey;
    RankOrder(lower, s, a, b);
    RankOrder(lower, s, b, c);
    RankOrder(lower, s, a, c);
    BeforeTransitive(RankKey(lower, s, a), RankKey(lower, s, b), RankKey(lower, s, c));
  }

  /** The books with these identifiers, in shelf order. */
  ghost function Arranged(lower: Lowering, books: Books, s: BookSort, ids: set<string>): (list: seq<Book>)
    requires WellKeyed(books) && ids <= books.Keys
  {
    if ids == {} then [] else
      SomeoneComesFirst(lower, books, s, ids);
      var id :| ComesFirst(lower, books, s, ids, id);
      [books[id]] + Arranged(lower, books, s, ids - {id})
  }

  /** A user's shelf: the whole library or one category, in the chosen order. */
  ghost function Shelf(lower: Lowering, books: Books, user: string, category: Option<string>, s: BookSort): seq<Book>
    requires WellKeyed(books)
  {
    Arranged(lower, books, s, ShelfIds(books, user, category))
  }

  /** Exactly the given books, each once, each before the ones it precedes. */
  ghost predicate IsArrangement(lower: Lowering, books: Books, s: BookSort, ids: set<string>, list: seq<Book>) {
    && ids <= books.Keys
    && (forall i :: 0 <= i < |list| ==> list[i].id in ids && books[list[i].id] == list[i])
    && (forall id <- ids :: books[id] in list)
    && (forall i, j :: 0 <= i < j < |list| ==> Precedes(lower, s, list[i], list[j]))
  }

  lemma {:induction false} ArrangedCorrect(lower: Lowering, books: Books, s: BookSort, ids: set<string>)
    requires WellKeyed(books) && ids <= books.Keys
    ensures IsArrangement(lower, books, s, ids, Arranged(lower, books, s, ids))
  {
    if ids != {} {
      var list := Arranged(lower, books, s, ids);
      var id := list[0].id;
      hide Precedes, IsBook;
      assert ComesFirst(lower, books, s, ids, id) && list[1..] == Arranged(lower, books, s, ids - {id});
      assert list[0] == books[id];
      hide Arranged, ComesFirst;
      ArrangedCorrect(lower, books, s, ids - {id});
      FirstThenRest(lower, books, s, ids, list, id);
    }
  }

  lemma FirstThenRest(lower: Lowering, books: Books, s: BookSort, ids: set<string>, list: seq<Book>, id: string)
    requires list != [] && ComesFirst(lower, books, s, ids, id) && list[0] == books[id] && books[id].id == id
    requires IsArrangement(lower, books, s, ids - {id}, list[1..])
    ensures IsArrangement(lower, books, s, ids, list)
  {
    hide Precedes;
    forall o | o in ids ensures books[o] in list {
      if o != id { assert books[o] in list[1..]; }
    }
    forall i, j | 0 <= i < j < |list| ensures Precedes(lower, s, list[i], list[j]) {
      assert list[j] == list[1..][j - 1];
      if i > 0 { assert list[i] == list[1..][i - 1]; }
    }
    forall i | 0 <= i < |list| ensures list[i].id in ids && books[list[i].id] == list[i] {
      if i > 0 { assert list[i] == list[1..][i - 1]; }
    }
  }

  /** A strictly ordered list never repeats an identifier. */
  ghost predicate DistinctIds(list: seq<Book>) {
    && (forall b <- list :: b.id != "")
    && (forall i, j :: 0 <= i < j < |list| ==> list[i].id != list[j].id)
  }

  lemma ArrangementDistinct(lower: Lowering, books: Books, s: BookSort, ids: set<string>, list: seq<Book>)
    requires WellKeyed(books) && IsArrangement(lower, books, s, ids, list)
    ensures DistinctIds(list)
  {
    hide Precedes;
    forall i, j | 0 <= i < j < |list| ensures list[i].id != list[j].id {
      if list[i].id == list[j].id {
        assert list[i] == list[j];
        RankOrder(lower, s, list[i], list[j]);
        BeforeIrreflexive(RankKey(lower, s, list[i]));
      }
    }
    forall b | b in list ensures b.id != "" {
      assert IsBook(books[b.id]);
    }
  }

  // ---- queries and pages, by brute force ----

  predicate Matches(lower: Lowering, b: Book, query: string) {
    query == "" || Contains(SearchText(lower, b), query)
  }

  function Matching(lower: Lowering, list: seq<Book>, query: string): (r: seq<Book>)
    ensures forall b :: b in r <==> b in list && Matches(lower, b, query)
  {
    if list == [] then []
    else
      var rest := Matching(lower, list[1..], query);
      assert list == [list[0]] + list[1..];
      if Matches(lower, list[0], query) then [list[0]] + rest else rest
  }

  lemma {:induction false} MatchingConcat(lower: Lowering, x: seq<Book>, y: seq<Book>, query: string)
    ensures Matching(lower, x + y, query) == Matching(lower, x, query) + Matching(lower, y, query)
  {
    hide Matches;
    if x == [] {
      assert x + y == y;
    } else {
      assert (x + y)[1..] == x[1..] + y;
      MatchingConcat(lower, x[1..], y, query);
    }
  }

  lemma {:induction false} MatchingAll(lower: Lowering, list: seq<Book>)
    ensures Matching(lower, list, "") == list
  {
    if list != [] { MatchingAll(lower, list[1..]); }
  }

  /** How many books a cursor skips: it names the last one already seen. */
  function Position(list: seq<Book>, cursor: string): (p: nat)
    ensures p <= |list|
    ensures p > 0 ==> list[p - 1].id == cursor
    ensures p == 0 ==> forall i :: 0 <= i < |list| ==> list[i].id != cursor
  {
    if list == [] then 0
    else if list[0].id == cursor then 1
    else
      var p := Position(list[1..], cursor);
      if p == 0 then 0 else p + 1
  }

  function After(list: seq<Book>, cursor: string): seq<Book> {
    list[Position(list, cursor)..]
  }

  datatype Page = Page(books: seq<Book>, next: string)

  /** bookCursorPage. */
  function PageOf(matches: seq<Book>, limit: nat): Page
    requires limit > 0
  {
    if |matches| <= limit then Page(matches, "") else Page(matches[..limit], matches[limit - 1].id)
  }

  /** The page a query must return: filter what is after the cursor, take limit. */
  function PageAfter(lower: Lowering, shelf: seq<Book>, query: string, cursor: string, limit: nat): Page
    requires limit > 0
  {
    PageOf(Matching(lower, After(shelf, cursor), query), limit)
  }

  /** One lookahead record is enough to know a page and its next cursor. */
  lemma Lookahead(matches: seq<Book>, limit: nat)
    requires limit > 0
    ensures PageOf(if |matches| <= limit then matches else matches[..limit + 1], limit) == PageOf(matches, limit)
  {
  }

  lemma PositionOf(list: seq<Book>, i: nat)
    requires DistinctIds(list) && i < |list|
    ensures Position(list, list[i].id) == i + 1
  {
  }

  lemma PositionOfNothing(list: seq<Book>)
    requires DistinctIds(list)
    ensures After(list, "") == list
  {
    forall i | 0 <= i < |list| ensures list[i].id != "" { assert list[i] in list; }
  }

  /** Where in the list the k-th match sits. */
  lemma {:induction false} MatchAt(lower: Lowering, list: seq<Book>, query: string, k: nat) returns (j: nat)
    requires k < |Matching(lower, list, query)|
    ensures j < |list| && list[j] == Matching(lower, list, query)[k]
    ensures Matching(lower, list[j + 1..], query) == Matching(lower, list, query)[k + 1..]
  {
    hide Matches;
    if Matches(lower, list[0], query) && k == 0 {
      j := 0;
    } else {
      var i := MatchAt(lower, list[1..], query, if Matches(lower, list[0], query) then k - 1 else k);
      j := i + 1;
      assert list[j + 1..] == list[1..][i + 1..];
    }
  }

  /** The next cursor takes up exactly where the page stopped. */
  lemma NextAdvances(lower: Lowering, shelf: seq<Book>, query: string, cursor: string, limit: nat)
    requires DistinctIds(shelf) && limit > 0
    ensures var page := PageAfter(lower, shelf, query, cursor, limit);
            var matches := Matching(lower, After(shelf, cursor), query);
            page.next != "" ==>
              && |page.books| == limit && matches[..limit] == page.books
              && Matching(lower, After(shelf, page.next), query) == matches[limit..]
              && |After(shelf, page.next)| < |After(shelf, cursor)|
  {
    hide Matches, Matching, Position, DistinctIds;
    var rest := After(shelf, cursor);
    var matches := Matching(lower, rest, query);
    if |matches| > limit {
      var j := MatchAt(lower, rest, query, limit - 1);
      var i := Position(shelf, cursor) + j;
      assert shelf[i] == rest[j];
      PositionOf(shelf, i);
      assert After(shelf, matches[limit - 1].id) == rest[j + 1..];
    }
  }

  /** All pages from a cursor on, concatenated. */
  function Walk(lower: Lowering, shelf: seq<Book>, query: string, cursor: string, limit: nat): seq<Book>
    requires DistinctIds(shelf) && limit > 0
    decreases |After(shelf, cursor)|
  {
    var page := PageAfter(lower, shelf, query, cursor, limit);
    NextAdvances(lower, shelf, query, cursor, limit);
    if page.next == "" then page.books else page.books + Walk(lower, shelf, query, page.next, limit)
  }

  /** Following the cursors visits every matching book once and in order, whatever the limit. */
  lemma {:induction false} WalkComplete(lower: Lowering, shelf: seq<Book>, query: string, cursor: string, limit: nat)
    requires DistinctIds(shelf) && limit > 0
    ensures Walk(lower, shelf, query, cursor, limit) == Matching(lower, After(shelf, cursor), query)
    decreases |After(shelf, cursor)|
  {
    hide Matches;
    var page := PageAfter(lower, shelf, query, cursor, limit);
    var matches := Matching(lower, After(shelf, cursor), query);
    NextAdvances(lower, shelf, query, cursor, limit);
    if page.next != "" {
      WalkComplete(lower, shelf, query, page.next, limit);
      assert matches == matches[..limit] + matches[limit..];
    } else {
      assert forall b <- matches :: b.id != "";
    }
  }

  /** From the empty cursor the pages of a shelf are the whole shelf. */
  lemma WalkFromStart(lower: Lowering, books: Books, user: string, category: Option<string>, s: BookSort,
                      query: string, limit: nat)
    requires WellKeyed(books) && limit > 0
    ensures var shelf := Shelf(lower, books, user, category, s);
            && DistinctIds(shelf)
            && Walk(lower, shelf, query, "", limit) == Matching(lower, shelf, query)
            && Walk(lower, shelf, "", "", limit) == shelf
  {
    hide Precedes, IsBook, Matches, Walk;
    var ids := ShelfIds(books, user, category);
    var shelf := Shelf(lower, books, user, category, s);
    ArrangedCorrect(lower, books, s, ids);
    ArrangementDistinct(lower, books, s, ids, shelf);
    PositionOfNothing(shelf);
    WalkComplete(lower, shelf, query, "", limit);
    WalkComplete(lower, shelf, "", "", limit);
    MatchingAll(lower, shelf);
  }
}
