/**
 * The page and list state of the material panel: the loaded list
 * (m_nApprovalBeanList), the total it reports (m_nDataTotal) and the current
 * page (m_nCurrentPage), the slice layoutAreaSetFiles hands to the thumbnail
 * area, and the way the search, reload and page-click handlers update them.
 * Query results are parameters; the page size is the thumbnail capacity the
 * layout widget reports.
 */
module Paging {
  import opened Wrappers
  import opened Classifier

  /** One row of a query result, as the thumbnail area shows it. */
  datatype ApprovalBean = ApprovalBean(name: string, fileType: FileType, size: int, approval: int)

  /** Index of the first item of a 1-based page. */
  function PageStart(page: int, n: nat): int
  {
    (page - 1) * n
  }

  /** One past the index of the last item of a page, cut at the total. */
  function PageEnd(total: int, page: int, n: nat): int
  {
    if PageStart(page, n) + n > total then total else PageStart(page, n) + n
  }

  /** The list can be sliced without reading outside it: with more items than
      fit on a page, the page is 1-based and its slice, if not empty, lies in the list. */
  predicate Showable<T>(items: seq<T>, total: int, page: int, n: nat)
  {
    total <= n
    || (page >= 1 && (PageEnd(total, page, n) <= PageStart(page, n) || PageEnd(total, page, n) <= |items|))
  }

  /** What layoutAreaSetFiles hands to the thumbnail area. */
  function Visible<T>(items: seq<T>, total: int, page: int, n: nat): seq<T>
    requires Showable(items, total, page, n)
  {
    if total <= n then items
    else if PageEnd(total, page, n) <= PageStart(page, n) then []
    else items[PageStart(page, n)..PageEnd(total, page, n)]
  }

  /** The page-slicing rules: a list that fits on one page is shown whole on
      every page; otherwise page p shows items (p-1)n up to (p-1)n + n, cut at
      the total, in order, and nothing once it starts at or past the total. */
  lemma VisibleIsPageSlice<T>(items: seq<T>, page: int, n: nat)
    requires page >= 1
    ensures Showable(items, |items|, page, n)
    ensures |items| <= n ==> Visible(items, |items|, page, n) == items
    ensures |items| > n && PageStart(page, n) >= |items| ==> Visible(items, |items|, page, n) == []
    ensures |items| > n && PageStart(page, n) < |items| ==>
              var r := Visible(items, |items|, page, n);
              && |r| == (if |items| - PageStart(page, n) < n then |items| - PageStart(page, n) else n)
              && forall k :: 0 <= k < |r| ==> r[k] == items[PageStart(page, n) + k]
  {
    PageStartNonNegative(page, n);
    var s := PageStart(page, n);
    if |items| > n && s < |items| {
      var e := PageEnd(|items|, page, n);
      assert s <= e <= |items|;
      assert Visible(items, |items|, page, n) == items[s..e];
    }
  }

  /** Twenty-five items on pages of ten: page 3 holds items 20 to 24. */
  lemma ThirdPageOfTwentyFive<T>(items: seq<T>)
    requires |items| == 25
    ensures Visible(items, 25, 3, 10) == items[20..25]
  {
  }

  /** Pages 1 to k of a list of more than n items, one after the other. */
  function PagesUpTo<T>(items: seq<T>, n: nat, k: nat): seq<T>
    requires n > 0
  {
    if k == 0 then []
    else
      VisibleIsPageSlice(items, k, n);
      PagesUpTo(items, n, k - 1) + Visible(items, |items|, k, n)
  }

  /** The number of pages a list of `total` items needs on pages of `n`: one per
      started run of n items. */
  function PageCount(total: int, n: nat): nat
    requires n > 0
    decreases total
  {
    if total <= 0 then 0 else 1 + PageCount(total - n, n)
  }

  /** Pages from 1 on start inside or past the list, never before it. */
  lemma PageStartNonNegative(page: int, n: nat)
    requires page >= 1
    ensures PageStart(page, n) >= 0
  {
  }

  /** Consecutive pages start n items apart. */
  lemma PageStartStep(k: int, n: nat)
    ensures PageStart(k + 1, n) == PageStart(k, n) + n
  {
    assert (k + 1 - 1) * n == (k - 1) * n + n;
  }

  /** How much of the list pages 1 to k-1 cover: up to where page k starts, cut at the end. */
  function Covered<T>(items: seq<T>, n: nat, k: nat): nat
  {
    if PageStart(k, n) < 0 then 0 else if PageStart(k, n) < |items| then PageStart(k, n) else |items|
  }

  /** Appending page k to the items before it extends the covered prefix by that page. */
  lemma PageAppend<T>(items: seq<T>, n: nat, k: nat)
    requires |items| > n > 0 && k >= 1 && PageStart(k, n) < |items|
    ensures items[..Covered(items, n, k)] + Visible(items, |items|, k, n) == items[..Covered(items, n, k + 1)]
  {
    PageStartStep(k, n);
    PageStartNonNegative(k, n);
    VisibleIsPageSlice(items, k, n);
    var lo := PageStart(k, n);
    var cut := Covered(items, n, k + 1);
    assert Visible(items, |items|, k, n) == items[lo..cut];
    assert items[..lo] + items[lo..cut] == items[..cut];
  }

  /** Pages 1 to k, shown in turn, are the list up to where page k + 1 starts. */
  lemma {:induction false} PagesUpToPrefix<T>(items: seq<T>, n: nat, k: nat)
    requires |items| > n > 0
    requires k == 0 || PageStart(k, n) < |items|
    ensures PagesUpTo(items, n, k) == items[..Covered(items, n, k + 1)]
  {
    if k == 0 {
      assert PageStart(1, n) == 0;
    } else {
      PageStartStep(k - 1, n);
      PageStartNonNegative(k, n);
      PagesUpToPrefix(items, n, k - 1);
      PageAppend(items, n, k);
    }
  }

  /** The last page starts inside the list and the one after it starts at or past its end. */
  lemma {:induction false} LastPageBounds(total: int, n: nat)
    requires total > 0 && n > 0
    ensures PageCount(total, n) >= 1
    ensures PageStart(PageCount(total, n), n) < total <= PageStart(PageCount(total, n) + 1, n)
    decreases total
  {
    var c := PageCount(total, n);
    PageStartStep(c, n);
    if total > n {
      LastPageBounds(total - n, n);
      PageStartStep(c - 1, n);
    }
  }

  /** Showing every page in turn shows the whole list, each item once, in order. */
  lemma AllPagesReassemble<T>(items: seq<T>, n: nat)
    requires n > 0
    ensures PagesUpTo(items, n, PageCount(|items|, n)) == items
  {
    var c := PageCount(|items|, n);
    if |items| == 0 {
      assert c == 0;
    } else if |items| <= n {
      assert PageCount(|items| - n, n) == 0;
      assert c == 1;
      VisibleIsPageSlice(items, 1, n);
    } else {
      LastPageBounds(|items|, n);
      PagesUpToPrefix(items, n, c);
    }
  }

  /** The panel's list state: the loaded list, the total it reports, the current page. */
  datatype PageState = PageState(items: seq<ApprovalBean>, total: int, page: int)

  /** The total matches the list and the page is 1-based. */
  predicate Consistent(s: PageState)
  {
    s.total == |s.items| && s.page >= 1
  }

  /** A consistent state can always be shown, on any page size. */
  lemma ConsistentShowable(s: PageState, n: nat)
    requires Consistent(s)
    ensures Showable(s.items, s.total, s.page, n)
  {
  }

  /** loadApprovalBeanList: the new list and its size; the current page is kept. */
  function AfterReload(s: PageState, results: seq<ApprovalBean>): PageState
  {
    PageState(results, |results|, s.page)
  }

  /** The search handler as written: the (possibly empty) result replaces the
      list before the empty case returns, leaving total and page behind. */
  function AfterSearchAsWritten(s: PageState, results: seq<ApprovalBean>): PageState
  {
    if |results| == 0 then s.(items := results) else PageState(results, |results|, 1)
  }

  /** The search handler as intended: an empty result changes nothing; any
      other result replaces the list and goes back to page 1. */
  function AfterSearch(s: PageState, results: seq<ApprovalBean>): PageState
  {
    if |results| == 0 then s else PageState(results, |results|, 1)
  }

  /** The page-click handler: the clicked page becomes current. */
  function AfterPageClick(s: PageState, p: int): PageState
  {
    s.(page := p)
  }

  /** What each handler does to the list state, and that each keeps it consistent. */
  lemma TransitionsKeepConsistent(s: PageState, results: seq<ApprovalBean>, p: int)
    requires Consistent(s)
    ensures Consistent(AfterReload(s, results))
    ensures AfterReload(s, results).page == s.page && AfterReload(s, results).total == |results|
    ensures results == [] ==> AfterSearch(s, results) == s
    ensures results != [] ==> AfterSearch(s, results).page == 1
                              && AfterSearch(s, results).items == results
    ensures Consistent(AfterSearch(s, results))
    ensures p >= 1 ==> Consistent(AfterPageClick(s, p))
    ensures AfterPageClick(s, p).page == p && AfterPageClick(s, p).items == s.items
  {
  }

  /** A reload that shrinks the list below the current page shows an empty page:
      the page is not clamped back into range. */
  lemma ReloadPastLastPageEmpty(s: PageState, results: seq<ApprovalBean>, n: nat)
    requires Consistent(s) && |results| > n && PageStart(s.page, n) >= |results|
    ensures Visible(results, |results|, AfterReload(s, results).page, n) == []
  {
  }

  /** The search handler as written breaks the list state: after an empty
      search, clicking page 2 of a list that needed more than one page asks
      for items of an empty list. */
  lemma EmptySearchAsWrittenBreaksPaging(s: PageState, n: nat)
    requires Consistent(s) && s.total > n > 0
    ensures !Consistent(AfterSearchAsWritten(s, []))
    ensures !Showable(AfterPageClick(AfterSearchAsWritten(s, []), 2).items,
                      AfterPageClick(AfterSearchAsWritten(s, []), 2).total, 2, n)
  {
    assert PageStart(2, n) == n;
  }

  /** The panel widget's list and page members. */
  class MaterialPanel {
    var items: seq<ApprovalBean>
    var total: int
    var page: int

    function State(): PageState
      reads this
    {
      PageState(items, total, page)
    }

    ghost predicate Valid()
      reads this
    {
      Consistent(State())
    }

    /** Construction: page 1, then the first load. */
    constructor (results: seq<ApprovalBean>)
      ensures Valid() && State() == PageState(results, |results|, 1)
    {
      items, total, page := results, |results|, 1;
    }

    /** layoutAreaSetFiles: the items of the current page, copied one by one. */
    method LayoutAreaSetFiles(n: nat) returns (shown: seq<ApprovalBean>)
      requires Showable(items, total, page, n)
      ensures shown == Visible(items, total, page, n)
      ensures total > n ==> forall k :: 0 <= k < |shown| ==> shown[k] == items[PageStart(page, n) + k]
    {
      if total <= n {
        shown := items;
        return;
      }
      var start := (page - 1) * n;
      var end := start + n;
      if end > total {
        end := total;
      }
      assert start == PageStart(page, n) && end == PageEnd(total, page, n);
      PageStartNonNegative(page, n);
      shown := [];
      var i := start;
      while i < end
        invariant 0 <= start <= i && (start < end ==> i <= end <= |items|)
        invariant start >= end ==> i == start
        invariant |shown| == i - start
        invariant forall k :: 0 <= k < |shown| ==> shown[k] == items[start + k]
      {
        shown := shown + [items[i]];
        i := i + 1;
      }
      assert start < end ==> shown == items[start..end];
    }

    /** loadApprovalBeanList (refresh, category, sort, approval and upload-finished
        handlers): replace the list, keep the page, show it. */
    method Reload(results: seq<ApprovalBean>, n: nat) returns (shown: seq<ApprovalBean>)
      requires Valid()
      modifies this
      ensures Valid() && State() == AfterReload(old(State()), results)
      ensures shown == Visible(items, total, page, n)
    {
      items := results;
      total := |results|;
      shown := LayoutAreaSetFiles(n);
    }

    /** The search handler: an empty result is reported and changes nothing
        (the corrected behaviour); otherwise the result is shown from page 1. */
    method Search(results: seq<ApprovalBean>, n: nat) returns (shown: Option<seq<ApprovalBean>>)
      requires Valid()
      modifies this
      ensures Valid() && State() == AfterSearch(old(State()), results)
      ensures results == [] <==> shown == None
      ensures shown.Some? ==> shown.value == Visible(items, total, page, n)
    {
      if |results| == 0 {
        return None;
      }
      items := results;
      total := |items|;
      page := 1;
      var s := LayoutAreaSetFiles(n);
      shown := Some(s);
    }

    /** The page-click handler. */
    method PageClick(p: int, n: nat) returns (shown: seq<ApprovalBean>)
      requires Valid() && p >= 1
      modifies this
      ensures Valid() && State() == AfterPageClick(old(State()), p)
      ensures shown == Visible(items, total, page, n)
    {
      page := p;
      shown := LayoutAreaSetFiles(n);
    }
  }
}
