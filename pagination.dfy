/**
 * Pagination of the main listing: 30 books per page, the page a page number
 * selects, and the row of page buttons, a window of at most 4 consecutive
 * pages around the current one plus first/last-page buttons and ellipses.
 */
module Pagination {
  import opened ArrayOps

  const BooksPerPage: nat := 30
  const MaxVisiblePages: nat := 4

  function Max(a: int, b: int): int { if a >= b then a else b }
  function Min(a: int, b: int): int { if a <= b then a else b }

  /** `Math.ceil(count / booksPerPage)`: the fewest pages that hold `count` books. */
  function TotalPages(count: nat): (t: nat)
    ensures count <= t * BooksPerPage
    ensures t > 0 ==> (t - 1) * BooksPerPage < count
  {
    (count + BooksPerPage - 1) / BooksPerPage
  }

  /**
   * `books.slice(startIndex, endIndex)` for page `page`: the books from
   * position `(page - 1) * 30` on, at most 30 of them.
   */
  function PageSlice<T>(books: seq<T>, page: int): (r: seq<T>)
    ensures page >= 1 ==>
      && |r| == Min(BooksPerPage, Max(0, |books| - (page - 1) * BooksPerPage))
      && (forall i :: 0 <= i < |r| ==> r[i] == books[(page - 1) * BooksPerPage + i])
  {
    var startIndex := (page - 1) * BooksPerPage;
    Slice(books, startIndex, startIndex + BooksPerPage)
  }

  /** A page past the last one shows nothing. */
  lemma PagePastLastPage<T>(books: seq<T>, page: int)
    requires page > TotalPages(|books|)
    ensures PageSlice(books, page) == []
  {
    assert (page - 1) * BooksPerPage >= TotalPages(|books|) * BooksPerPage;
  }

  /** Every book is on exactly the page its position says, at the offset its position says. */
  lemma PageOfIndex<T>(books: seq<T>, i: int)
    requires 0 <= i < |books|
    ensures 1 <= i / BooksPerPage + 1 <= TotalPages(|books|)
    ensures var r := PageSlice(books, i / BooksPerPage + 1);
      i % BooksPerPage < |r| && r[i % BooksPerPage] == books[i]
  {
    var page := i / BooksPerPage + 1;
    assert (page - 1) * BooksPerPage + i % BooksPerPage == i;
  }

  /** With 45 books there are two pages, and asking for a third shows nothing. */
  lemma FortyFiveBooks<T>(books: seq<T>)
    requires |books| == 45
    ensures TotalPages(|books|) == 2
    ensures PageSlice(books, 2) == books[30..]
    ensures PageSlice(books, 3) == []
  {
    assert PageSlice(books, 2) == books[30..];
    PagePastLastPage(books, 3);
  }

  /** The first and last page numbers of the button window, `startPage` and `endPage`. */
  datatype Window = Window(start: int, end: int)

  /** The window computed from `currentPage` and `totalPages`, after the adjustment step. */
  function PageWindow(current: int, total: nat): (w: Window)
    ensures 1 <= w.start <= w.end + 1 && w.end <= total
    ensures current >= 1 ==> w.start <= current
    ensures w.end - w.start + 1 <= MaxVisiblePages
    ensures 1 <= current <= total ==>
      && w.start <= current <= w.end
      && w.end - w.start + 1 == Min(MaxVisiblePages, total)
      && w.start == Max(1, Min(current - MaxVisiblePages / 2, total - MaxVisiblePages + 1))
  {
    var startPage := Max(1, current - MaxVisiblePages / 2);
    var endPage := Min(total, startPage + MaxVisiblePages - 1);
    if endPage - startPage + 1 < MaxVisiblePages then
      Window(Max(1, endPage - MaxVisiblePages + 1), endPage)
    else
      Window(startPage, endPage)
  }

  /** An entry of the 'page-numbers' region: a page button or an ellipsis. */
  datatype PageItem = Page(number: int, active: bool) | Ellipsis

  /** The first-page button and the leading ellipsis. */
  function Leading(start: int): seq<PageItem>
  {
    if start > 1 then [Page(1, false)] + (if start > 2 then [Ellipsis] else []) else []
  }

  /** The buttons `start..end`, the one for `current` marked active. */
  function Buttons(start: int, end: int, current: int): (r: seq<PageItem>)
    ensures |r| == Max(0, end - start + 1)
    ensures forall j :: 0 <= j < |r| ==> r[j] == Page(start + j, start + j == current)
  {
    seq(Max(0, end - start + 1), j => Page(start + j, start + j == current))
  }

  /** The window's buttons grow one page at a time, as the loop that appends them does. */
  lemma ButtonsGrow(start: int, end: int, current: int)
    requires start <= end + 1
    ensures Buttons(start, end + 1, current) == Buttons(start, end, current) + [Page(end + 1, end + 1 == current)]
  {
  }

  /** The trailing ellipsis and the last-page button. */
  function Trailing(end: int, total: int): seq<PageItem>
  {
    if end < total then (if end < total - 1 then [Ellipsis] else []) + [Page(total, false)] else []
  }

  /**
   * The contents of 'page-numbers' that `updatePaginationButtons` produces:
   * nothing when there are no pages, and never more than the window plus two
   * entries on each side.
   */
  function Layout(current: int, total: nat): (items: seq<PageItem>)
    ensures current >= 1 && total == 0 ==> items == []
    ensures |items| <= MaxVisiblePages + 4
  {
    var w := PageWindow(current, total);
    Leading(w.start) + Buttons(w.start, w.end, current) + Trailing(w.end, total)
  }

  /** The page numbers of the buttons in `items`. */
  function ShownPages(items: seq<PageItem>): set<int>
  {
    set i | 0 <= i < |items| && items[i].Page? :: items[i].number
  }

  ghost predicate IncreasingPages(items: seq<PageItem>)
  {
    forall i, j :: 0 <= i < j < |items| && items[i].Page? && items[j].Page? ==> items[i].number < items[j].number
  }

  /** Two neighbouring buttons are for consecutive pages. */
  ghost predicate NeighboursConsecutive(items: seq<PageItem>)
  {
    forall i :: 0 <= i < |items| - 1 && items[i].Page? && items[i + 1].Page? ==> items[i + 1].number == items[i].number + 1
  }

  /** An ellipsis stands between two buttons and stands for at least one skipped page. */
  ghost predicate EllipsesMarkGaps(items: seq<PageItem>)
  {
    forall i :: 0 <= i < |items| && items[i].Ellipsis? ==>
      0 < i < |items| - 1 && items[i - 1].Page? && items[i + 1].Page? && items[i + 1].number > items[i - 1].number + 1
  }

  /** How many entries stand before the window: the page-1 button and the leading ellipsis. */
  function LeadCount(start: int): nat { if start > 2 then 2 else if start > 1 then 1 else 0 }
  /** How many entries stand after the window: the trailing ellipsis and the last-page button. */
  function TrailCount(end: int, total: int): nat { if end < total - 1 then 2 else if end < total then 1 else 0 }

  /** The entry at position `i` of a row with window `start..end`, by arithmetic on `i` alone. */
  function ItemAt(start: int, end: int, current: int, total: int, i: int): PageItem
  {
    var lead, n := LeadCount(start), end - start + 1;
    if i < lead then (if i == 0 then Page(1, false) else Ellipsis)
    else if i < lead + n then Page(start + i - lead, start + i - lead == current)
    else if i == lead + n + TrailCount(end, total) - 1 then Page(total, false)
    else Ellipsis
  }

  lemma RowAt(start: int, end: int, current: int, total: int)
    requires 1 <= start <= end <= total
    ensures var items := Leading(start) + Buttons(start, end, current) + Trailing(end, total);
      && |items| == LeadCount(start) + (end - start + 1) + TrailCount(end, total)
      && forall i :: 0 <= i < |items| ==> items[i] == ItemAt(start, end, current, total, i)
  {
    var a, b, c := Leading(start), Buttons(start, end, current), Trailing(end, total);
    var items := a + b + c;
    forall i | 0 <= i < |items| ensures items[i] == ItemAt(start, end, current, total, i) {
      if i < |a| {
        assert items[i] == a[i];
      } else if i < |a| + |b| {
        assert items[i] == b[i - |a|];
      } else {
        assert items[i] == c[i - |a| - |b|];
      }
    }
  }

  /** The layout, entry by entry, for a current page in range. */
  lemma LayoutAt(current: int, total: nat)
    requires 1 <= current <= total
    ensures var w := PageWindow(current, total);
      && 1 <= w.start <= current <= w.end <= total
      && |Layout(current, total)| == LeadCount(w.start) + (w.end - w.start + 1) + TrailCount(w.end, total)
      && forall i :: 0 <= i < |Layout(current, total)| ==>
           Layout(current, total)[i] == ItemAt(w.start, w.end, current, total, i)
  {
    var w := PageWindow(current, total);
    RowAt(w.start, w.end, current, total);
  }

  /** Exactly the current page's button is marked active, and every button is for a page in `[1, total]`. */
  lemma LayoutMarksCurrent(current: int, total: nat)
    requires 1 <= current <= total
    ensures var items := Layout(current, total);
      && Page(current, true) in items
      && forall i :: 0 <= i < |items| && items[i].Page? ==>
           && (items[i].active <==> items[i].number == current)
           && 1 <= items[i].number <= total
  {
    LayoutAt(current, total);
    var w := PageWindow(current, total);
    var items := Layout(current, total);
    assert items[LeadCount(w.start) + current - w.start] == Page(current, true);
  }

  /** Page 1 and the last page are always one click away: they open and close the row. */
  lemma LayoutEnds(current: int, total: nat)
    requires 1 <= current <= total
    ensures var items := Layout(current, total);
      && |items| >= 1
      && items[0] == Page(1, current == 1)
      && items[|items| - 1] == Page(total, current == total)
  {
    LayoutAt(current, total);
  }

  /**
   * The buttons are for strictly increasing pages; two neighbouring buttons
   * are for consecutive pages, and an ellipsis sits exactly where pages are
   * skipped.
   */
  lemma LayoutOrdered(current: int, total: nat)
    requires 1 <= current <= total
    ensures var items := Layout(current, total);
      IncreasingPages(items) && NeighboursConsecutive(items) && EllipsesMarkGaps(items)
  {
    LayoutIncreasing(current, total);
    LayoutNeighbours(current, total);
    LayoutEllipses(current, total);
  }

  lemma LayoutIncreasing(current: int, total: nat)
    requires 1 <= current <= total
    ensures IncreasingPages(Layout(current, total))
  {
    LayoutAt(current, total);
  }

  lemma LayoutNeighbours(current: int, total: nat)
    requires 1 <= current <= total
    ensures NeighboursConsecutive(Layout(current, total))
  {
    LayoutAt(current, total);
  }

  lemma LayoutEllipses(current: int, total: nat)
    requires 1 <= current <= total
    ensures EllipsesMarkGaps(Layout(current, total))
  {
    LayoutAt(current, total);
  }

  /** The row shows the buttons for page 1, the last page and the window, and no others. */
  lemma LayoutShownPages(current: int, total: nat)
    requires 1 <= current <= total
    ensures var w := PageWindow(current, total);
      forall k :: k in ShownPages(Layout(current, total)) <==> k == 1 || k == total || w.start <= k <= w.end
  {
    LayoutAt(current, total);
    var w := PageWindow(current, total);
    var items := Layout(current, total);
    var lead := LeadCount(w.start);
    forall k ensures k in ShownPages(items) <==> k == 1 || k == total || w.start <= k <= w.end {
      if w.start <= k <= w.end {
        assert items[lead + k - w.start].number == k;
      }
      if k == 1 {
        assert items[0].number == 1;
      }
      if k == total {
        assert items[|items| - 1].number == total;
      }
    }
  }

}
