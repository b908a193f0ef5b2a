/**
 * The storefront page: its listing regions, the search message, the
 * pagination controls and the page-level `currentPage` variable, with the
 * event handlers that rewrite them. The category bar, the search box and the
 * pagination controls are three separate paths: each reads the whole catalog
 * and overwrites 'featured-books' on its own, none of them sees what the
 * others selected.
 */
module Storefront {
  import opened Catalog
  import opened Pagination
  import Text

  class Storefront {
    /** The dataset every handler reads; it never changes during a session. */
    const catalog: seq<Book>

    /** The 'featured-books' region. */
    var featuredBooks: seq<Book>
    /** The 'bestseller-books' region. */
    var bestsellerBooks: seq<Book>
    /** The text of 'search-message'. */
    var searchMessage: string

    /** The page the pagination controls stand on. */
    var currentPage: int
    /** The 'page-numbers' region. */
    var pageNumbers: seq<PageItem>
    var prevDisabled: bool
    var nextDisabled: bool

    function PageCount(): nat
      reads this
    {
      TotalPages(|catalog|)
    }

    /**
     * `currentPage` stays a real page (page 1 when there is none), and every
     * page button on screen is for a real page.
     */
    ghost predicate Valid()
      reads this
    {
      && 1 <= currentPage <= Max(1, PageCount())
      && forall i :: 0 <= i < |pageNumbers| && pageNumbers[i].Page? ==> 1 <= pageNumbers[i].number <= PageCount()
    }

    /** The pagination controls show `currentPage` as `displayBooksWithPagination` draws it. */
    ghost predicate ShowsCurrentPage()
      reads this
    {
      && featuredBooks == PageSlice(catalog, currentPage)
      && pageNumbers == Layout(currentPage, PageCount())
      && prevDisabled == (currentPage == 1)
      && nextDisabled == (currentPage == PageCount())
    }

    /** The page before any handler has run: `currentPage` is 1 and every region is empty. */
    constructor (catalog: seq<Book>)
      ensures Valid()
      ensures this.catalog == catalog && currentPage == 1
      ensures featuredBooks == [] && bestsellerBooks == [] && searchMessage == ""
      ensures pageNumbers == [] && !prevDisabled && !nextDisabled
    {
      this.catalog := catalog;
      featuredBooks, bestsellerBooks, searchMessage := [], [], "";
      currentPage := 1;
      pageNumbers, prevDisabled, nextDisabled := [], false, false;
    }

    /** The first load handler: the whole catalog and its first 20 books. */
    method ShowAllBooks()
      modifies this`featuredBooks, this`bestsellerBooks
      ensures featuredBooks == catalog && bestsellerBooks == Bestsellers(catalog)
    {
      featuredBooks := catalog;
      bestsellerBooks := Bestsellers(catalog);
    }

    /** A click on a category of the category bar. */
    method SelectCategory(category: string)
      modifies this`featuredBooks, this`bestsellerBooks
      ensures featuredBooks == FilterBooksByCategory(category, catalog).featured
      ensures bestsellerBooks == FilterBooksByCategory(category, catalog).bestsellers
    {
      var listing := FilterBooksByCategory(category, catalog);
      featuredBooks := listing.featured;
      bestsellerBooks := listing.bestsellers;
    }

    /** A click on the search button, or Enter in the search box holding `rawQuery`. */
    method Search(rawQuery: string)
      modifies this`featuredBooks, this`bestsellerBooks, this`searchMessage
      ensures featuredBooks == PerformSearch(rawQuery, catalog).featured
      ensures bestsellerBooks == PerformSearch(rawQuery, catalog).bestsellers
      ensures searchMessage == PerformSearch(rawQuery, catalog).message
    {
      var result := PerformSearch(rawQuery, catalog);
      featuredBooks := result.featured;
      bestsellerBooks := result.bestsellers;
      searchMessage := result.message;
    }

    /**
     * `updatePaginationButtons`: redraws 'page-numbers' and the Previous/Next
     * buttons for `currentPage`. Its one caller, `displayBooksWithPagination`,
     * passes the real page count.
     */
    method UpdatePaginationButtons(totalPages: nat)
      requires totalPages == PageCount()
      modifies this`pageNumbers, this`prevDisabled, this`nextDisabled
      ensures pageNumbers == Layout(currentPage, totalPages)
      ensures prevDisabled == (currentPage == 1)
      ensures nextDisabled == (currentPage == totalPages)
    {
      // The buttons are collected here and written to 'page-numbers' at the end.
      var buttons: seq<PageItem> := [];

      var startPage, endPage := VisibleRange(currentPage, totalPages);

      prevDisabled := currentPage == 1;

      if startPage > 1 {
        buttons := buttons + [Page(1, false)];
        if startPage > 2 {
          buttons := buttons + [Ellipsis];
        }
      }
      assert buttons == Leading(startPage);

      var window := WindowButtons(startPage, endPage, currentPage);
      buttons := buttons + window;

      if endPage < totalPages {
        if endPage < totalPages - 1 {
          buttons := buttons + [Ellipsis];
        }
        buttons := buttons + [Page(totalPages, false)];
      }
      assert buttons == Leading(startPage) + window + Trailing(endPage, totalPages);
      pageNumbers := buttons;

      nextDisabled := currentPage == totalPages;
    }

    /** The loop of `updatePaginationButtons` that appends the buttons `startPage..endPage`, marking `currentPage` active. */
    static method WindowButtons(startPage: int, endPage: int, currentPage: int) returns (buttons: seq<PageItem>)
      requires startPage <= endPage + 1
      ensures buttons == Buttons(startPage, endPage, currentPage)
    {
      buttons := [];
      var i := startPage;
      while i <= endPage
        invariant startPage <= i <= endPage + 1
        invariant buttons == Buttons(startPage, i - 1, currentPage)
      {
        ButtonsGrow(startPage, i - 1, currentPage);
        buttons := buttons + [Page(i, i == currentPage)];
        i := i + 1;
      }
    }

    /**
     * The range of visible page numbers, `startPage` and `endPage` after the
     * adjustment step: the `let`-reassigning form of `PageWindow`, which
     * carries the properties of the window.
     */
    static method VisibleRange(currentPage: int, totalPages: nat) returns (startPage: int, endPage: int)
      ensures Window(startPage, endPage) == PageWindow(currentPage, totalPages)
    {
      startPage := Max(1, currentPage - MaxVisiblePages / 2);
      endPage := Min(totalPages, startPage + MaxVisiblePages - 1);
      if endPage - startPage + 1 < MaxVisiblePages {
        startPage := Max(1, endPage - MaxVisiblePages + 1);
      }
    }

    /** `displayBooksWithPagination`: shows page `currentPage` of the whole catalog and redraws the controls. */
    method DisplayBooksWithPagination()
      requires Valid()
      modifies this`featuredBooks, this`pageNumbers, this`prevDisabled, this`nextDisabled
      ensures Valid() && ShowsCurrentPage()
    {
      var totalPages := TotalPages(|catalog|);
      featuredBooks := PageSlice(catalog, currentPage);
      UpdatePaginationButtons(totalPages);
      if 1 <= currentPage <= totalPages {
        LayoutMarksCurrent(currentPage, totalPages);
      }
    }

    /** A click on the page button for page `k`. */
    method GoTo(k: int)
      requires Valid()
      requires Page(k, false) in pageNumbers || Page(k, true) in pageNumbers
      modifies this`currentPage, this`featuredBooks, this`pageNumbers, this`prevDisabled, this`nextDisabled
      ensures Valid() && ShowsCurrentPage()
      ensures currentPage == k
    {
      currentPage := k;
      DisplayBooksWithPagination();
    }

    /** A click on Previous: back one page unless on page 1. */
    method Prev()
      requires Valid()
      modifies this`currentPage, this`featuredBooks, this`pageNumbers, this`prevDisabled, this`nextDisabled
      ensures Valid()
      ensures old(currentPage) > 1 ==> currentPage == old(currentPage) - 1 && ShowsCurrentPage()
      ensures old(currentPage) <= 1 ==> unchanged(this)
    {
      if currentPage > 1 {
        currentPage := currentPage - 1;
        DisplayBooksWithPagination();
      }
    }

    /** A click on Next: on one page unless on the last page. */
    method Next()
      requires Valid()
      modifies this`currentPage, this`featuredBooks, this`pageNumbers, this`prevDisabled, this`nextDisabled
      ensures Valid()
      ensures old(currentPage) < PageCount() ==> currentPage == old(currentPage) + 1 && ShowsCurrentPage()
      ensures old(currentPage) >= PageCount() ==> unchanged(this)
    {
      var totalPages := TotalPages(|catalog|);
      if currentPage < totalPages {
        currentPage := currentPage + 1;
        DisplayBooksWithPagination();
      }
    }
  }

  /** Clearing the search after choosing a category shows the whole catalog, not that category. */
  method CategoryThenEmptySearch(catalog: seq<Book>, category: string) returns (shown: seq<Book>)
    ensures shown == catalog
  {
    var page := new Storefront(catalog);
    page.SelectCategory(category);
    page.Search("");
    assert Text.Trim("") == "";
    shown := page.featuredBooks;
  }

  /** Turning the page after a search shows the next page of the whole catalog, not of the matches. */
  method SearchThenNext(catalog: seq<Book>, query: string) returns (shown: seq<Book>)
    requires |catalog| > BooksPerPage
    ensures shown == catalog[BooksPerPage..Min(|catalog|, 2 * BooksPerPage)]
  {
    var page := new Storefront(catalog);
    page.DisplayBooksWithPagination();
    page.Search(query);
    page.Next();
    shown := page.featuredBooks;
  }

  /** 45 books: two pages; on page 2 Next is disabled and a further click changes nothing. */
  method FortyFiveBooksAtTheEnd(catalog: seq<Book>) returns (page: nat, nextOff: bool, shown: seq<Book>)
    requires |catalog| == 45
    ensures page == 2 && nextOff && shown == catalog[30..]
  {
    var s := new Storefront(catalog);
    FortyFiveBooks(catalog);
    s.DisplayBooksWithPagination();
    s.Next();
    s.Next();
    page, nextOff, shown := s.currentPage, s.nextDisabled, s.featuredBooks;
  }
}
