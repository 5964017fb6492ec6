/**
 * The `BookApp` controller: its browse state (`page`, `matches`) and the
 * handlers that recompute it, with the parts of the page they write kept as
 * plain fields.
 */
module App {
  import opened Catalog
  import opened Subsequences
  import opened Paging

  /** One `<option>` of a dropdown: its value and its visible text. */
  datatype MenuOption = MenuOption(value: string, text: string)

  /** `options` lists the sentinel `any` first, then one option per table entry, in entry order. */
  predicate ListsTable(options: seq<MenuOption>, firstText: string, items: seq<(string, string)>) {
    |options| == |items| + 1 &&
    options[0] == MenuOption(Any, firstText) &&
    forall i :: 0 <= i < |items| ==> options[i + 1] == MenuOption(items[i].0, items[i].1)
  }

  class BookApp {
    // Imported data: the catalog, the author and genre tables as their
    // (id, name) entries in entry order, and the page size.
    const books: seq<Book>
    const authors: seq<(string, string)>
    const genres: seq<(string, string)>
    const perPage: nat

    // Browse state.
    var page: nat
    var matches: seq<Book>

    // What the handlers write to the page.
    var listItems: seq<Book>               // the previews in the list container
    var messageShown: bool                 // the "no results" message
    var remainingShown: nat                // the counter on the "Show more" button
    var showMoreDisabled: bool             // the "Show more" button's disabled flag
    var searchOverlayOpen: bool            // the search dialog
    var genreOptions: seq<MenuOption>      // the genre dropdown
    var authorOptions: seq<MenuOption>     // the author dropdown

    /** The browse state: a positive page size, a 1-based page, matches in catalog order. */
    ghost predicate Valid()
      reads this`page, this`matches
    {
      perPage > 0 && page >= 1 && SubsequenceOf(matches, books)
    }

    /** The list shows exactly the current page, and the button agrees with it. */
    ghost predicate Rendered()
      reads this
    {
      Valid() &&
      listItems == PageOf(matches, page, perPage) &&
      remainingShown == Remaining(matches, page, perPage) &&
      showMoreDisabled == ShowMoreDisabled(matches, page, perPage)
    }

    /** The object literal: page 1, every book matching, nothing rendered yet. */
    constructor (books: seq<Book>, authors: seq<(string, string)>, genres: seq<(string, string)>, perPage: nat)
      requires perPage > 0
      ensures Valid()
      ensures this.books == books && this.authors == authors && this.genres == genres && this.perPage == perPage
      ensures page == 1 && matches == books
      ensures listItems == [] && !messageShown && remainingShown == 0 && !showMoreDisabled
      ensures !searchOverlayOpen && genreOptions == [] && authorOptions == []
    {
      this.books := books;
      this.authors := authors;
      this.genres := genres;
      this.perPage := perPage;
      page := 1;
      matches := books;
      listItems := [];
      messageShown := false;
      remainingShown := 0;
      showMoreDisabled := false;
      searchOverlayOpen := false;
      genreOptions := [];
      authorOptions := [];
      SubsequenceOfSelf(books);
    }

    /** `init`: shows the first slice, fills both dropdowns and sets the button. */
    method Init()
      requires Valid()
      modifies this`listItems, this`genreOptions, this`authorOptions, this`remainingShown, this`showMoreDisabled
      ensures Valid() && (page == 1 ==> Rendered())
      ensures listItems == Slice(matches, 0, perPage)
      ensures remainingShown == Remaining(matches, page, perPage)
      ensures showMoreDisabled == ShowMoreDisabled(matches, page, perPage)
      ensures |genreOptions| >= |old(genreOptions)| && genreOptions[..|old(genreOptions)|] == old(genreOptions)
      ensures ListsTable(genreOptions[|old(genreOptions)|..], "All Genres", genres)
      ensures |authorOptions| >= |old(authorOptions)| && authorOptions[..|old(authorOptions)|] == old(authorOptions)
      ensures ListsTable(authorOptions[|old(authorOptions)|..], "All Authors", authors)
    {
      PopulateBookPreviews(Slice(matches, 0, perPage));
      PopulateDropdowns();
      UpdateShowMoreButton();
    }

    /** `populateBookPreviews`: clears the list container, then appends the given books. */
    method PopulateBookPreviews(bookList: seq<Book>)
      modifies this`listItems
      ensures listItems == bookList
    {
      listItems := [];
      listItems := listItems + bookList;
    }

    /** `populateDropdowns`: appends the genre options, then the author options. */
    method PopulateDropdowns()
      modifies this`genreOptions, this`authorOptions
      ensures |genreOptions| >= |old(genreOptions)| && genreOptions[..|old(genreOptions)|] == old(genreOptions)
      ensures ListsTable(genreOptions[|old(genreOptions)|..], "All Genres", genres)
      ensures |authorOptions| >= |old(authorOptions)| && authorOptions[..|old(authorOptions)|] == old(authorOptions)
      ensures ListsTable(authorOptions[|old(authorOptions)|..], "All Authors", authors)
    {
      var genreList := PopulateDropdown("All Genres", genres);
      assert (genreOptions + genreList)[|genreOptions|..] == genreList;
      genreOptions := genreOptions + genreList;
      var authorList := PopulateDropdown("All Authors", authors);
      assert (authorOptions + authorList)[|authorOptions|..] == authorList;
      authorOptions := authorOptions + authorList;
    }

    /**
     * `populateDropdown`: the option list a dropdown receives, the sentinel
     * `any` with the given text first, then one option per table entry.
     */
    static method PopulateDropdown(firstOptionText: string, items: seq<(string, string)>)
      returns (options: seq<MenuOption>)
      ensures ListsTable(options, firstOptionText, items)
    {
      options := [MenuOption(Any, firstOptionText)];
      var k := 0;
      while k < |items|
        invariant 0 <= k <= |items|
        invariant |options| == k + 1 && options[0] == MenuOption(Any, firstOptionText)
        invariant forall i :: 0 <= i < k ==> options[i + 1] == MenuOption(items[i].0, items[i].1)
      {
        var (id, name) := items[k];
        options := options + [MenuOption(id, name)];
        k := k + 1;
      }
    }

    /** `updateShowMoreButton`: sets the counter and the disabled flag from the browse state. */
    method UpdateShowMoreButton()
      modifies this`remainingShown, this`showMoreDisabled
      ensures remainingShown == Remaining(matches, page, perPage)
      ensures showMoreDisabled == ShowMoreDisabled(matches, page, perPage)
      ensures showMoreDisabled <==> |matches| <= page * perPage
    {
      var remainingBooks: int := |matches| - page * perPage;
      remainingShown := if remainingBooks > 0 then remainingBooks else 0;
      showMoreDisabled := remainingBooks <= 0;
    }

    /**
     * `handleSearchSubmit`: filters the whole catalog, makes the result the
     * matches, goes back to page 1, shows the "no results" message exactly
     * when nothing matched, displays the first page and closes the search dialog.
     */
    method HandleSearchSubmit(filters: Filters)
      requires Valid()
      modifies this`matches, this`page, this`messageShown, this`listItems
      modifies this`remainingShown, this`showMoreDisabled, this`searchOverlayOpen
      ensures Rendered()
      ensures matches == Filter(books, filters) && page == 1
      ensures ShowsAll(filters) ==> matches == books
      ensures messageShown <==> |matches| == 0
      ensures listItems == Slice(matches, 0, perPage)
      ensures !searchOverlayOpen
    {
      var result := Filter(books, filters);
      matches := result;
      page := 1;
      if ShowsAll(filters) {
        FilterShowsAll(books, filters);
      }
      messageShown := |result| < 1;
      PopulateBookPreviews(Slice(result, 0, perPage));
      UpdateShowMoreButton();
      searchOverlayOpen := false;
      PageAfter(result, 0, perPage);
    }

    /**
     * `handleShowMoreClick`: replaces the displayed list by the slice after
     * the current page, then moves to the next page.
     */
    method HandleShowMoreClick()
      requires Valid()
      modifies this`page, this`listItems, this`remainingShown, this`showMoreDisabled
      ensures Rendered()
      ensures listItems == Slice(matches, old(page) * perPage, (old(page) + 1) * perPage)
      ensures page == old(page) + 1 && matches == old(matches)
    {
      var nextBooks := Slice(matches, page * perPage, (page + 1) * perPage);
      PopulateBookPreviews(nextBooks);
      PageAfter(matches, page, perPage);
      page := page + 1;
      UpdateShowMoreButton();
    }

    /**
     * `handleBookPreviewClick`, given the id of the clicked preview, if any:
     * an empty id is falsy and selects nothing; otherwise the book whose
     * details are displayed is the first catalog book with that id, and there
     * is one exactly when some book has that id.
     */
    method HandleBookPreviewClick(preview: Option<string>) returns (active: Option<Book>)
      ensures active.Some? <==>
        preview.Some? && preview.value != "" && exists i :: 0 <= i < |books| && books[i].id == preview.value
      ensures active.Some? ==> exists i :: FirstWithId(books, preview.value, i) && books[i] == active.value
    {
      active := None;
      if preview.Some? && preview.value != "" {
        active := FindBook(books, preview.value);
      }
    }
  }
}
