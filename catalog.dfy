/**
 * The catalog and the filter engine of the book browser: a book record, the
 * search form's filter record, the per-book test `filterBooks`, the catalog
 * scan `books.filter(...)` and the lookup `books.find(...)` by id.
 */
module Catalog {
  import opened Text
  import opened Subsequences

  datatype Option<T> = None | Some(value: T)

  /** A catalog entry; `author` and each of `genres` are ids into the name tables. */
  datatype Book = Book(id: string, title: string, author: string, genres: seq<string>)

  /** The search form's fields: a title query, an author id and a genre id. */
  datatype Filters = Filters(title: string, author: string, genre: string)

  /** The value of the first option of each dropdown, which switches its test off. */
  const Any: string := "any"

  /**
   * `filterBooks`: the title test passes when the query is blank or its lowered
   * (untrimmed) form occurs in the lowered title; the author test when the
   * author filter is `any` or equals the book's author; the genre test when the
   * genre filter is `any` or is one of the book's genres. The book passes when
   * all three do.
   */
  function FilterBooks(book: Book, filters: Filters): (r: bool)
    ensures r <==>
      (IsBlank(filters.title) || exists i :: OccursAt(ToLower(book.title), ToLower(filters.title), i)) &&
      (filters.author == Any || book.author == filters.author) &&
      (filters.genre == Any || filters.genre in book.genres)
  {
    var genreMatch := filters.genre == Any || filters.genre in book.genres;
    var titleMatch := Trim(filters.title) == "" || Includes(ToLower(book.title), ToLower(filters.title));
    var authorMatch := filters.author == Any || book.author == filters.author;
    titleMatch && authorMatch && genreMatch
  }

  /**
   * `books.filter(book => filterBooks(book, filters))`: the passing books in
   * catalog order, an order-preserving subsequence of the catalog.
   */
  function Filter(books: seq<Book>, filters: Filters): (r: seq<Book>)
    ensures SubsequenceOf(r, books)
    decreases |books|
  {
    if books == [] then
      SubsequenceOfSelf(books);
      []
    else
      var rest := Filter(books[1..], filters);
      assert books == [books[0]] + books[1..];
      if FilterBooks(books[0], filters) then
        SubsequenceKeep(books[0], rest, books[1..]);
        [books[0]] + rest
      else
        SubsequenceSkip(books[0], rest, books[1..]);
        rest
  }

  /**
   * The matches hold every passing book exactly as often as the catalog does,
   * and no other book.
   */
  lemma {:induction false} FilterCounts(books: seq<Book>, filters: Filters)
    ensures forall b :: multiset(Filter(books, filters))[b] ==
                        if FilterBooks(b, filters) then multiset(books)[b] else 0
    decreases |books|
  {
    if books != [] {
      assert books == [books[0]] + books[1..];
      FilterCounts(books[1..], filters);
    }
  }

  /** A book is among the matches exactly when it is in the catalog and passes the filter. */
  lemma FilterMembers(books: seq<Book>, filters: Filters, b: Book)
    ensures b in Filter(books, filters) <==> b in books && FilterBooks(b, filters)
  {
    var r := Filter(books, filters);
    FilterCounts(books, filters);
    assert b in r <==> multiset(r)[b] > 0;
    assert b in books <==> multiset(books)[b] > 0;
  }

  /**
   * The filter result is determined by its contract: the only subsequence of
   * the catalog holding exactly the passing books, as often as the catalog
   * does, is `Filter(books, filters)`.
   */
  lemma {:induction false} FilterUnique(books: seq<Book>, filters: Filters, r: seq<Book>)
    requires SubsequenceOf(r, books)
    requires forall b :: multiset(r)[b] == if FilterBooks(b, filters) then multiset(books)[b] else 0
    ensures r == Filter(books, filters)
    decreases |books|
  {
    if books == [] {
      assert multiset(r) == multiset{};
    } else {
      var x := books[0];
      assert books == [x] + books[1..];
      if r == [] {
        var f := Filter(books, filters);
        FilterCounts(books, filters);
        assert forall b :: multiset(f)[b] == 0;
        assert multiset(f) == multiset{};
      } else if FilterBooks(x, filters) {
        SubsequenceCases(r, books);
        if r[0] == x && SubsequenceOf(r[1..], books[1..]) {
          assert r == [x] + r[1..];
          FilterUnique(books[1..], filters, r[1..]);
        } else {
          SubsequenceMultiset(r, books[1..]);
          assert false;
        }
      } else {
        assert r[0] != x by {
          assert r[0] in multiset(r);
        }
        SubsequenceCases(r, books);
        FilterUnique(books[1..], filters, r);
      }
    }
  }

  /** A catalog whose every book passes survives the filter unchanged. */
  lemma {:induction false} FilterKeepsAll(books: seq<Book>, filters: Filters)
    requires forall i :: 0 <= i < |books| ==> FilterBooks(books[i], filters)
    ensures Filter(books, filters) == books
    decreases |books|
  {
    if books != [] {
      FilterKeepsAll(books[1..], filters);
      assert books == [books[0]] + books[1..];
    }
  }

  /** Filtering again with the same filters changes nothing. */
  lemma FilterIdempotent(books: seq<Book>, filters: Filters)
    ensures Filter(Filter(books, filters), filters) == Filter(books, filters)
  {
    var r := Filter(books, filters);
    forall i | 0 <= i < |r| ensures FilterBooks(r[i], filters) {
      FilterMembers(books, filters, r[i]);
    }
    FilterKeepsAll(r, filters);
  }

  /** Filtering works piecewise, which is what keeps the catalog order. */
  lemma {:induction false} FilterAppend(front: seq<Book>, back: seq<Book>, filters: Filters)
    ensures Filter(front + back, filters) == Filter(front, filters) + Filter(back, filters)
    decreases |front|
  {
    if front == [] {
      assert front + back == back;
    } else {
      assert (front + back)[1..] == front[1..] + back;
      assert (front + back)[0] == front[0];
      FilterAppend(front[1..], back, filters);
    }
  }

  /** Blank title, author `any` and genre `any`: every book passes. */
  predicate ShowsAll(filters: Filters) {
    IsBlank(filters.title) && filters.author == Any && filters.genre == Any
  }

  /** With filters that switch every test off, the search returns the whole catalog in order. */
  lemma FilterShowsAll(books: seq<Book>, filters: Filters)
    requires ShowsAll(filters)
    ensures Filter(books, filters) == books
  {
    FilterKeepsAll(books, filters);
  }

  /** Searching for a book's exact title (any author, any genre) finds that book. */
  lemma TitleQueryFindsBook(books: seq<Book>, b: Book, filters: Filters)
    requires b in books
    requires filters.title == b.title && filters.author == Any && filters.genre == Any
    ensures b in Filter(books, filters)
  {
    var t := ToLower(b.title);
    assert t[0..|t|] == t;
    assert OccursAt(t, t, 0);
    FilterMembers(books, filters, b);
  }

  /** The title test ignores the case of both the title and the query. */
  lemma TitleTestIgnoresCase(b: Book, filters: Filters)
    ensures FilterBooks(b.(title := ToLower(b.title)), filters) == FilterBooks(b, filters)
    ensures FilterBooks(b, filters.(title := ToLower(filters.title))) == FilterBooks(b, filters)
  {
    ToLowerIdempotent(b.title);
    ToLowerIdempotent(filters.title);
    ToLowerKeepsBlank(filters.title);
  }

  /**
   * Trimming only decides blankness: a query made of a space followed by the
   * whole (non-blank) title is not blank, and it is longer than the title, so
   * the book does not pass.
   */
  lemma LeadingSpaceMisses(b: Book)
    requires !IsBlank(b.title)
    ensures !FilterBooks(b, Filters(" " + b.title, Any, Any))
  {
    var q := " " + b.title;
    assert !IsBlank(q) by {
      var i :| 0 <= i < |b.title| && !IsSpace(b.title[i]);
      assert q[i + 1] == b.title[i];
    }
  }

  /** A query that equals the title up to case passes the title test. */
  lemma CaseOnlyMatches(b: Book, q: string)
    requires ToLower(q) == ToLower(b.title)
    ensures FilterBooks(b, Filters(q, Any, Any))
  {
    var t := ToLower(b.title);
    assert t[0..|t|] == t;
    assert OccursAt(t, ToLower(q), 0);
  }

  /** `b` is the first book of `books` whose id is `id`, found at index `i`. */
  ghost predicate FirstWithId(books: seq<Book>, id: string, i: int) {
    0 <= i < |books| && books[i].id == id && forall j :: 0 <= j < i ==> books[j].id != id
  }

  /** `books.find(book => book.id === id)`: the first book with that id, or none. */
  function FindBook(books: seq<Book>, id: string): (r: Option<Book>)
    ensures r.None? <==> forall i :: 0 <= i < |books| ==> books[i].id != id
    ensures r.Some? ==> exists i :: FirstWithId(books, id, i) && books[i] == r.value
    decreases |books|
  {
    if books == [] then
      None
    else if books[0].id == id then
      assert FirstWithId(books, id, 0);
      Some(books[0])
    else
      var r := FindBook(books[1..], id);
      assert r.Some? ==> exists i :: FirstWithId(books, id, i) && books[i] == r.value by {
        if r.Some? {
          var i :| FirstWithId(books[1..], id, i) && books[1..][i] == r.value;
          assert FirstWithId(books, id, i + 1);
        }
      }
      assert r.None? ==> forall i :: 0 <= i < |books| ==> books[i].id != id by {
        if r.None? {
          forall i | 0 <= i < |books| ensures books[i].id != id {
            if i > 0 {
              assert books[i] == books[1..][i - 1];
            }
          }
        }
      }
      r
  }
}
