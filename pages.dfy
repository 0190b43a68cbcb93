/** The page arithmetic of the site table: five sites per page, the window of
    the current page, the "from .. to" caption and the previous/next buttons. */
module Pages {
  const SitesPerPage: nat := 5

  /** `Math.ceil(n / sitesPerPage)`: the fewest pages that hold `n` sites. */
  function TotalPages(n: nat): (r: nat)
    ensures r == 0 <==> n == 0
    ensures n <= SitesPerPage * r
    ensures r > 0 ==> SitesPerPage * (r - 1) < n
  {
    (n + SitesPerPage - 1) / SitesPerPage
  }

  /** `(currentPage - 1) * sitesPerPage`. */
  function StartIndex(page: int): int {
    (page - 1) * SitesPerPage
  }

  /** `filtered.slice(start, start + sitesPerPage)` for a start that is never
      negative: the slice is cut short at the end of the list and is empty
      past it. */
  function PageOf<T>(s: seq<T>, page: int): (r: seq<T>)
    requires page >= 1
    ensures |r| <= SitesPerPage
    ensures StartIndex(page) >= |s| ==> r == []
    ensures StartIndex(page) < |s| ==>
      |r| == (if |s| - StartIndex(page) < SitesPerPage then |s| - StartIndex(page) else SitesPerPage)
    ensures forall k :: 0 <= k < |r| ==> StartIndex(page) + k < |s| && r[k] == s[StartIndex(page) + k]
  {
    var start := StartIndex(page);
    if start >= |s| then []
    else if start + SitesPerPage <= |s| then s[start..start + SitesPerPage]
    else s[start..]
  }

  /** Every site is shown on exactly one page, the page `i / 5 + 1`, within
      the page count, at position `i % 5`. */
  lemma PageOfIndex<T>(s: seq<T>, i: nat)
    requires i < |s|
    ensures var page := i / SitesPerPage + 1;
      && 1 <= page <= TotalPages(|s|)
      && i % SitesPerPage < |PageOf(s, page)|
      && PageOf(s, page)[i % SitesPerPage] == s[i]
  {
    var page := i / SitesPerPage + 1;
    assert StartIndex(page) == i - i % SitesPerPage;
  }

  /** The site at position `k` of a page belongs to that page and no other. */
  lemma PageIsUnique<T>(s: seq<T>, page: int, k: nat)
    requires page >= 1 && k < |PageOf(s, page)|
    ensures page == (StartIndex(page) + k) / SitesPerPage + 1
    ensures k == (StartIndex(page) + k) % SitesPerPage
  {
  }

  /** Pages past the last one are empty, and every page up to it is not. */
  lemma PagesInRange<T>(s: seq<T>, page: int)
    requires page >= 1
    ensures PageOf(s, page) != [] <==> page <= TotalPages(|s|)
  {
    var t := TotalPages(|s|);
    if page <= t {
      assert StartIndex(page) <= SitesPerPage * (t - 1) < |s|;
    } else {
      assert StartIndex(page) >= SitesPerPage * t >= |s|;
    }
  }

  /** The caption numbers: first shown position (one-based) and
      `Math.min(start + sitesPerPage, n)`. */
  datatype Caption = Caption(first: int, last: int, count: nat)

  function CaptionOf(n: nat, page: int): Caption {
    var start := StartIndex(page);
    Caption(start + 1, if start + SitesPerPage < n then start + SitesPerPage else n, n)
  }

  /** On a non-empty page the caption spans exactly the sites that are shown. */
  lemma CaptionMatchesPage<T>(s: seq<T>, page: int)
    requires page >= 1 && PageOf(s, page) != []
    ensures var c := CaptionOf(|s|, page);
      c.last - c.first + 1 == |PageOf(s, page)| && c.first == StartIndex(page) + 1
  {
  }

  /** The "previous" button moves back one page unless on the first. */
  function PrevPage(page: int): (r: int)
    ensures page > 1 ==> r == page - 1
    ensures page <= 1 ==> r == page
  {
    if page > 1 then page - 1 else page
  }

  /** The "next" button moves on one page unless already on the last. */
  function NextPage(page: int, n: nat): (r: int)
    ensures page < TotalPages(n) ==> r == page + 1
    ensures page >= TotalPages(n) ==> r == page
  {
    if page < TotalPages(n) then page + 1 else page
  }

  /** Both buttons keep the page at least 1, and a page within the page
      count stays within it. */
  lemma ButtonsStayInRange(page: int, n: nat)
    requires page >= 1
    ensures PrevPage(page) >= 1 && NextPage(page, n) >= 1
    ensures page <= TotalPages(n) ==> NextPage(page, n) <= TotalPages(n) && PrevPage(page) <= TotalPages(n)
  {
  }

  /** From the first page, pressing "next" `k` times shows page `k + 1` as
      long as the pages last. */
  function PressNext(page: int, n: nat, k: nat): int
    decreases k
  {
    if k == 0 then page else NextPage(PressNext(page, n, k - 1), n)
  }

  lemma {:induction false} PressNextReaches(n: nat, k: nat)
    requires k < TotalPages(n)
    ensures PressNext(1, n, k) == k + 1
    decreases k
  {
    if k > 0 {
      PressNextReaches(n, k - 1);
    }
  }
}
