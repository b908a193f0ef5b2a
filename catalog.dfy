/**
 * The catalog queries of the storefront: the category filter behind the
 * category bar and the text search behind the search box. Both read the
 * whole catalog and produce what is written to the two listing regions,
 * 'featured-books' (every match) and 'bestseller-books' (the first 20).
 */
module Catalog {
  import opened Text
  import opened ArrayOps

  /** One record of the book dataset. */
  datatype Book = Book(
    id: nat,
    title: string,
    author: string,
    cover: string,
    categories: seq<string>,
    featured: bool)

  /** The category entry that stands for the whole catalog. */
  const AllBooks: string := "All Books"

  /** How many books the 'bestseller-books' region shows. */
  const BestsellerCount: nat := 20

  /** The contents of the two listing regions after a filter. */
  datatype Listing = Listing(featured: seq<Book>, bestsellers: seq<Book>)

  /** `books.slice(0, 20)` */
  function Bestsellers(books: seq<Book>): (r: seq<Book>)
    ensures |r| == if |books| < BestsellerCount then |books| else BestsellerCount
    ensures r == books[..|r|]
  {
    Slice(books, 0, BestsellerCount)
  }

  /** `book.categories.includes(category)` as a filter callback. */
  function InCategory(category: string): Book -> bool
  {
    (b: Book) => category in b.categories
  }

  /** `filterBooksByCategory`: what the two regions show once `category` is selected. */
  function FilterBooksByCategory(category: string, books: seq<Book>): (r: Listing)
    ensures category == AllBooks ==> r.featured == books
    ensures category != AllBooks ==>
      && (forall k :: 0 <= k < |r.featured| ==> r.featured[k] in books && category in r.featured[k].categories)
      && (forall k :: 0 <= k < |books| && category in books[k].categories ==> books[k] in r.featured)
    ensures r.bestsellers == Bestsellers(r.featured)
  {
    var filtered := if category == AllBooks then books else Filter(books, InCategory(category));
    var bestsellers := if category == AllBooks then Bestsellers(books)
                       else Bestsellers(Filter(books, InCategory(category)));
    Listing(filtered, bestsellers)
  }

  /** A category other than 'All Books' keeps exactly its books, in catalog order. */
  lemma CategoryKeepsOrder(category: string, books: seq<Book>) returns (idx: seq<nat>)
    requires category != AllBooks
    ensures IsSelection(books, InCategory(category), FilterBooksByCategory(category, books).featured, idx)
  {
    idx := FilterSelects(books, InCategory(category));
  }

  /**
   * `searchInput.value.trim().toLowerCase()`: a query with no capital
   * letters and no whitespace at either end, empty exactly when the box
   * holds nothing but whitespace.
   */
  function NormalizeQuery(raw: string): (q: string)
    ensures |q| <= |raw|
    ensures q == "" <==> AllWhitespace(raw)
    ensures q == "" || (!IsWhitespace(q[0]) && !IsWhitespace(q[|q| - 1]))
    ensures forall i :: 0 <= i < |q| ==> !('A' <= q[i] <= 'Z')
  {
    Lower(Trim(raw))
  }

  /** The search predicate: the query occurs in the lower-cased title or author, or in the decimal id. */
  predicate Matches(query: string, b: Book)
  {
    Contains(Lower(b.title), query) || Contains(Lower(b.author), query) || Contains(Decimal(b.id), query)
  }

  function MatchesQuery(query: string): Book -> bool
  {
    (b: Book) => Matches(query, b)
  }

  const NoResultsMessage: string := "No books found matching your search."

  /** `Found ${n} book(s) matching your search.`, which never reads as the no-results message. */
  function FoundMessage(n: nat): (m: string)
    ensures m != NoResultsMessage
  {
    var m := "Found " + Decimal(n) + " book(s) matching your search.";
    assert m[0] != NoResultsMessage[0];
    m
  }

  /** What a search writes to the two listing regions and to 'search-message'. */
  datatype SearchResult = SearchResult(featured: seq<Book>, bestsellers: seq<Book>, message: string)

  /** `performSearch` on the raw text of the search box. */
  function PerformSearch(rawQuery: string, books: seq<Book>): (r: SearchResult)
    ensures NormalizeQuery(rawQuery) == "" ==> r.featured == books && r.message == ""
    ensures NormalizeQuery(rawQuery) != "" ==>
      var q := NormalizeQuery(rawQuery);
      && (forall k :: 0 <= k < |r.featured| ==> r.featured[k] in books && Matches(q, r.featured[k]))
      && (forall k :: 0 <= k < |books| && Matches(q, books[k]) ==> books[k] in r.featured)
    ensures r.bestsellers == Bestsellers(r.featured)
    ensures r.message == NoResultsMessage <==> NormalizeQuery(rawQuery) != "" && r.featured == []
    ensures NormalizeQuery(rawQuery) != "" && r.featured != [] ==> r.message == FoundMessage(|r.featured|)
  {
    var query := NormalizeQuery(rawQuery);
    if query != "" then
      var filtered := Filter(books, MatchesQuery(query));
      var bestsellers := Bestsellers(Filter(books, MatchesQuery(query)));
      var message := if |filtered| == 0 then NoResultsMessage else FoundMessage(|filtered|);
      SearchResult(filtered, bestsellers, message)
    else
      SearchResult(books, Bestsellers(books), "")
  }

  /** A non-empty search keeps exactly the matching books, in catalog order. */
  lemma SearchKeepsOrder(rawQuery: string, books: seq<Book>) returns (idx: seq<nat>)
    requires NormalizeQuery(rawQuery) != ""
    ensures IsSelection(books, MatchesQuery(NormalizeQuery(rawQuery)), PerformSearch(rawQuery, books).featured, idx)
  {
    idx := FilterSelects(books, MatchesQuery(NormalizeQuery(rawQuery)));
  }

  /** Queries that differ only in letter case give the same search, messages included. */
  lemma SearchIgnoresCase(raw1: string, raw2: string, books: seq<Book>)
    requires Lower(raw1) == Lower(raw2)
    ensures PerformSearch(raw1, books) == PerformSearch(raw2, books)
  {
    TrimLowerCommute(raw1);
    TrimLowerCommute(raw2);
    assert NormalizeQuery(raw1) == NormalizeQuery(raw2);
  }

  lemma SearchTolkienEitherCase(books: seq<Book>)
    ensures PerformSearch("TOLKIEN", books) == PerformSearch("tolkien", books)
  {
    assert Lower("TOLKIEN") == Lower("tolkien") == "tolkien";
    SearchIgnoresCase("TOLKIEN", "tolkien", books);
  }

  /** The count in a "Found" message is the number of matches: distinct counts give distinct messages. */
  lemma FoundMessageCount(n: nat, m: nat)
    requires FoundMessage(n) == FoundMessage(m)
    ensures n == m
  {
    var tail := " book(s) matching your search.";
    var a, b := FoundMessage(n), FoundMessage(m);
    assert a[6..|a| - |tail|] == Decimal(n);
    assert b[6..|b| - |tail|] == Decimal(m);
    DecimalRoundTrip(n);
    DecimalRoundTrip(m);
  }

  /** In any catalog, the query "3" finds the books with ids 3 and 13, whatever their titles and authors. */
  lemma SearchFindsIdDigits(books: seq<Book>)
    ensures forall k :: 0 <= k < |books| && (books[k].id == 3 || books[k].id == 13) ==>
      books[k] in PerformSearch("3", books).featured
  {
    assert TrimStart("3") == "3";
    assert TrimEnd("3") == "3";
    assert Lower("3") == "3";
    assert NormalizeQuery("3") == "3";
    assert Decimal(13) == Decimal(1) + "3";
    assert OccursAt(Decimal(3), "3", 0);
    assert OccursAt(Decimal(13), "3", 1);
  }

  /** In the catalog of just the books with ids 3 and 13, the query "3" shows both, in order, with the message for two matches. */
  lemma SearchByIdDigits(b3: Book, b13: Book)
    requires b3.id == 3 && b13.id == 13
    ensures PerformSearch("3", [b3, b13]).featured == [b3, b13]
    ensures PerformSearch("3", [b3, b13]).message == FoundMessage(2)
  {
    assert TrimStart("3") == "3";
    assert TrimEnd("3") == "3";
    assert Lower("3") == "3";
    assert NormalizeQuery("3") == "3";
    assert Decimal(13) == Decimal(1) + "3";
    assert OccursAt(Decimal(3), "3", 0);
    assert OccursAt(Decimal(13), "3", 1);
    var p := MatchesQuery("3");
    assert p(b3) && p(b13);
    assert [b3, b13][1..] == [b13];
    assert [b13][1..] == [];
    assert Filter([b13], p) == [b13];
    assert Filter([b3, b13], p) == [b3, b13];
  }
}
