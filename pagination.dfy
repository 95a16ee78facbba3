/**
 * Page slicing as every listing view does it: a listing is cut into pages of
 * a fixed size, pages are numbered from 1, and a requested page number is
 * clamped the way the paginator's `get_page` clamps it: a missing or
 * non-integer number gives page 1, an integer outside [1, last] gives the
 * last page. An empty listing still has one (empty) page.
 */
module Pagination {
  import opened Wrappers

  /** Page size shared by all views. */
  const PostsPerPage: nat := 10

  /**
   * One page: its items, its number, the page count, the listing's length
   * and `start`, the position in the listing of the page's first item.
   */
  datatype Page<T> = Page(items: seq<T>, number: nat, numPages: nat, count: nat, start: nat)
  {
    predicate HasNext()
    {
      number < numPages
    }

    predicate HasPrevious()
    {
      number > 1
    }
  }

  /** Number of pages of a listing of `count` items: never zero. */
  function NumPages(count: nat, perPage: nat): (n: nat)
    requires perPage > 0
    ensures n >= 1
    ensures (n - 1) * perPage < (if count == 0 then 1 else count) <= n * perPage
  {
    if count == 0 then 1
    else
      var q := (count + perPage - 1) / perPage;
      var rem := (count + perPage - 1) % perPage;
      assert count + perPage - 1 == q * perPage + rem;
      assert (q - 1) * perPage == q * perPage - perPage;
      q
  }

  lemma MulMonotone(a: int, b: int, c: nat)
    requires a <= b
    ensures a * c <= b * c
  {
    assert b * c - a * c == (b - a) * c;
  }

  /** Below `n * c` the quotient by `c` is below `n`. */
  lemma QuotientBelow(k: nat, c: nat, n: nat)
    requires c > 0 && k < n * c
    ensures k / c < n
  {
    if k / c >= n {
      MulMonotone(n, k / c, c);
    }
  }

  /** Where page `number` starts, relative to the end of the listing. */
  lemma PageBounds(count: nat, perPage: nat, number: nat)
    requires perPage > 0 && 1 <= number <= NumPages(count, perPage)
    ensures (number - 1) * perPage < (if count == 0 then 1 else count)
    ensures number < NumPages(count, perPage) ==> (number - 1) * perPage + perPage < count
    ensures number == NumPages(count, perPage) ==> count <= (number - 1) * perPage + perPage
  {
    var n := NumPages(count, perPage);
    MulMonotone(number - 1, n - 1, perPage);
    assert (number - 1) * perPage + perPage == number * perPage;
    if number < n {
      MulMonotone(number, n - 1, perPage);
    }
  }

  /** The page number `get_page` settles on. */
  function PageNumber(requested: Option<int>, numPages: nat): nat
  {
    match requested
    case None => 1
    case Some(k) => if 1 <= k <= numPages then k else numPages
  }

  /** The page number settled on exists, and differs from a given number only when that number is out of range. */
  lemma PageNumberInRange(requested: Option<int>, numPages: nat)
    requires numPages >= 1
    ensures 1 <= PageNumber(requested, numPages) <= numPages
    ensures requested.Some? && requested.value != PageNumber(requested, numPages) ==>
      requested.value < 1 || requested.value > numPages
  {
  }

  /** Page `requested` of `items`, `perPage` items to a page. */
  function GetPage<T>(items: seq<T>, perPage: nat, requested: Option<int>): (r: Page<T>)
    requires perPage > 0
    ensures r.count == |items| && r.numPages == NumPages(|items|, perPage)
    ensures 1 <= r.number <= r.numPages
    ensures requested.None? ==> r.number == 1
    ensures requested.Some? && 1 <= requested.value <= r.numPages ==> r.number == requested.value
    ensures requested.Some? && !(1 <= requested.value <= r.numPages) ==> r.number == r.numPages && !r.HasNext()
    ensures |r.items| <= perPage
    ensures |items| > 0 ==> |r.items| > 0
    ensures r.HasNext() ==> |r.items| == perPage
    ensures r.start == (r.number - 1) * perPage
    ensures r.start + |r.items| <= |items|
    ensures r.items == items[r.start .. r.start + |r.items|]
    ensures !r.HasNext() ==> r.start + |r.items| == |items|
  {
    var numPages := NumPages(|items|, perPage);
    var number := PageNumber(requested, numPages);
    PageBounds(|items|, perPage, number);
    var start := (number - 1) * perPage;
    var end := if start + perPage >= |items| then |items| else start + perPage;
    Page(items[start..end], number, numPages, |items|, start)
  }

  /** Item `k` of a listing sits on an existing page, at an offset below `perPage`. */
  lemma PositionOnPage(count: nat, perPage: nat, k: nat)
    requires perPage > 0 && k < count
    ensures 1 <= k / perPage + 1 <= NumPages(count, perPage)
    ensures (k / perPage) * perPage + k % perPage == k && k % perPage < perPage
  {
    QuotientBelow(k, perPage, NumPages(count, perPage));
  }

  /**
   * On page `k / perPage + 1`, starting at `start` and holding `len` items
   * (a full page unless it is the last), item `k` sits at offset `k % perPage`.
   */
  lemma PageStart(count: nat, perPage: nat, k: nat, number: int, start: int, len: int, last: bool)
    requires perPage > 0 && k < count && number == k / perPage + 1 && start == (number - 1) * perPage
    requires !last ==> len == perPage
    requires last ==> start + len == count
    ensures start + k % perPage == k && k % perPage < len
  {
    assert number - 1 == k / perPage;
  }

  /** Page `k / perPage + 1` is that page, starts `k % perPage` items before item `k`, and reaches past it. */
  lemma PageHoldsPosition<T>(items: seq<T>, perPage: nat, k: nat)
    requires perPage > 0 && k < |items|
    ensures var page := GetPage(items, perPage, Some(k / perPage + 1));
      page.number == k / perPage + 1 && page.start + k % perPage == k && k % perPage < |page.items|
  {
    PositionOnPage(|items|, perPage, k);
    var number := k / perPage + 1;
    var page := GetPage(items, perPage, Some(number));
    assert 1 <= number <= page.numPages;
    assert page.number == number;
    PageStart(|items|, perPage, k, page.number, page.start, |page.items|, !page.HasNext());
  }


  /**
   * Every item of a listing is on exactly the page its position gives it:
   * item `k` is item `k % perPage` of page `k / perPage + 1`.
   */
  lemma ItemOnPage<T>(items: seq<T>, perPage: nat, k: nat)
    requires perPage > 0 && k < |items|
    ensures var page := GetPage(items, perPage, Some(k / perPage + 1));
      page.number == k / perPage + 1 && k % perPage < |page.items| && page.items[k % perPage] == items[k]
  {
    PageHoldsPosition(items, perPage, k);
    var page := GetPage(items, perPage, Some(k / perPage + 1));
    var m := k % perPage;
    assert page.items[m] == items[page.start + m];
  }




}
