/** The progressive-reveal hook: a page cursor over an in-memory list whose
    shown part grows one page at a time. A load is split into the step that
    starts it (`loadMore`) and the step that ends it (the delayed callback);
    the observer that triggers loads and the delay itself are not modelled. */
module InfiniteScroll {
  import opened Common
  import Seqs

  /** The page size when the caller passes none. */
  const DefaultPageSize := 12

  /** The hook's state: the items shown, whether a load is pending, the page cursor. */
  datatype Scroll<T> = Scroll(displayed: seq<T>, isLoading: bool, page: int)

  /** State at mount, before the reset effect runs. */
  function Mount<T>(): Scroll<T> {
    Scroll([], false, 1)
  }

  /** The effect that runs whenever the items or the page size change: show
      the first page again. A pending load stays pending. */
  function Reset<T>(st: Scroll<T>, items: seq<T>, pageSize: int): (r: Scroll<T>)
    ensures r.page == 1 && r.isLoading == st.isLoading
    ensures pageSize >= 0 ==> r.displayed == items[..Min(pageSize, |items|)]
  {
    Scroll(Seqs.Slice(items, 0, pageSize), st.isLoading, 1)
  }

  /** `loadMore`: ignored while a load is pending or when the caller says
      there is no more; otherwise marks a load as pending. */
  function BeginLoad<T>(st: Scroll<T>, hasMore: bool): (r: Scroll<T>)
    ensures st.isLoading || !hasMore ==> r == st
    ensures !st.isLoading && hasMore ==> r.isLoading && r.displayed == st.displayed && r.page == st.page
  {
    if st.isLoading || !hasMore then st else st.(isLoading := true)
  }

  /** The slice the next completed load reveals. */
  function NextPage<T>(st: Scroll<T>, items: seq<T>, pageSize: int): seq<T> {
    Seqs.Slice(items, st.page * pageSize, st.page * pageSize + pageSize)
  }

  /** The end of a load, and whether it called `onLoadMore`. */
  datatype Loaded<T> = Loaded(scroll: Scroll<T>, notified: bool)

  /** The delayed callback: append the next page and advance the cursor if
      that page is not empty; either way the load is over. */
  function EndLoad<T>(st: Scroll<T>, items: seq<T>, pageSize: int): (r: Loaded<T>)
    ensures !r.scroll.isLoading
    ensures r.notified <==> |NextPage(st, items, pageSize)| > 0
    ensures r.notified ==> r.scroll.displayed == st.displayed + NextPage(st, items, pageSize)
                           && r.scroll.page == st.page + 1
    ensures !r.notified ==> r.scroll.displayed == st.displayed && r.scroll.page == st.page
  {
    var next := NextPage(st, items, pageSize);
    if |next| > 0 then Loaded(Scroll(st.displayed + next, false, st.page + 1), true)
    else Loaded(st.(isLoading := false), false)
  }

  /** The condition under which the sentinel's visibility starts a load. */
  function OnSentinel<T>(st: Scroll<T>, items: seq<T>, hasMore: bool, intersecting: bool): (r: Scroll<T>)
    ensures !HasMoreItems(st, items) ==> r == st
    ensures !intersecting || !hasMore ==> r == st
    ensures intersecting && hasMore && HasMoreItems(st, items) ==> r == BeginLoad(st, hasMore)
  {
    if intersecting && hasMore && |st.displayed| < |items| then BeginLoad(st, hasMore) else st
  }

  /** `hasMoreItems`. */
  function HasMoreItems<T>(st: Scroll<T>, items: seq<T>): (b: bool)
    ensures b <==> |items| > 0 && Progress(st, items) < 100.0
  {
    |st.displayed| < |items|
  }

  /** `progress`, as an exact ratio instead of a float: the shown items as a
      percentage of all items, 0 for an empty list. */
  function Progress<T>(st: Scroll<T>, items: seq<T>): (p: real)
    ensures |items| == 0 ==> p == 0.0
    ensures |items| > 0 ==> p * (|items| as real) == (|st.displayed| as real) * 100.0
    ensures 0.0 <= p
    ensures |st.displayed| <= |items| ==> p <= 100.0
    ensures p >= 100.0 <==> |items| > 0 && |st.displayed| >= |items|
    ensures p == 100.0 <==> |items| > 0 && |st.displayed| == |items|
  {
    if |items| > 0 then
      PercentFacts(|st.displayed| as real, |items| as real);
      (|st.displayed| as real) * 100.0 / (|items| as real)
    else 0.0
  }

  /** The shown items are the first `page` pages of the items. */
  ghost predicate Inv<T>(st: Scroll<T>, items: seq<T>, pageSize: int) {
    && pageSize >= 1
    && st.page >= 1
    && st.displayed == items[..Min(st.page * pageSize, |items|)]
  }

  lemma ResetEstablishesInv<T>(st: Scroll<T>, items: seq<T>, pageSize: int)
    requires pageSize >= 1
    ensures Inv(Reset(st, items, pageSize), items, pageSize)
  {
  }

  lemma BeginLoadKeepsInv<T>(st: Scroll<T>, items: seq<T>, pageSize: int, hasMore: bool)
    requires Inv(st, items, pageSize)
    ensures Inv(BeginLoad(st, hasMore), items, pageSize)
  {
  }

  /** A completed load keeps the shown items a prefix of whole pages. */
  lemma EndLoadKeepsInv<T>(st: Scroll<T>, items: seq<T>, pageSize: int)
    requires Inv(st, items, pageSize)
    ensures Inv(EndLoad(st, items, pageSize).scroll, items, pageSize)
  {
    var start := st.page * pageSize;
    var next := NextPage(st, items, pageSize);
    assert 0 <= start <= start + pageSize;
    if |next| > 0 {
      var stop := Min(start + pageSize, |items|);
      assert start < |items|;
      assert next == items[start..stop];
      assert (st.page + 1) * pageSize == start + pageSize;
      assert items[..start] + items[start..stop] == items[..stop];
    }
  }

  /** The shown items are always a prefix of the items. */
  lemma InvPrefix<T>(st: Scroll<T>, items: seq<T>, pageSize: int)
    requires Inv(st, items, pageSize)
    ensures |st.displayed| <= |items|
    ensures st.displayed == items[..|st.displayed|]
  {
  }

  /** Progress lies in [0, 100] and reaches 100 exactly when everything is shown. */
  lemma ProgressBounds<T>(st: Scroll<T>, items: seq<T>, pageSize: int)
    requires Inv(st, items, pageSize)
    ensures 0.0 <= Progress(st, items) <= 100.0
    ensures Progress(st, items) == 100.0 <==> |items| > 0 && !HasMoreItems(st, items)
    ensures |items| == 0 ==> Progress(st, items) == 0.0
  {
  }

  /** The percentage `d` of `n` is non-negative, reaches 100 exactly when
      `d` reaches `n`, and equals 100 only for `d == n`. */
  lemma PercentFacts(d: real, n: real)
    requires 0.0 <= d && n > 0.0
    ensures 0.0 <= d * 100.0 / n
    ensures d <= n ==> d * 100.0 / n <= 100.0
    ensures d * 100.0 / n >= 100.0 <==> d >= n
    ensures d * 100.0 / n == 100.0 <==> d == n
  {
    var q := d * 100.0 / n;
    assert q * n == d * 100.0;
  }

  /** A visible sentinel keeps the shown items a prefix of whole pages. */
  lemma SentinelKeepsInv<T>(st: Scroll<T>, items: seq<T>, pageSize: int, hasMore: bool, intersecting: bool)
    requires Inv(st, items, pageSize)
    ensures Inv(OnSentinel(st, items, hasMore, intersecting), items, pageSize)
  {
    BeginLoadKeepsInv(st, items, pageSize, hasMore);
  }

  /** Twenty items, pages of twelve: twelve shown (60%), then after one load
      all twenty (100%) and nothing more to show. */
  lemma WorkedExample<T>(items: seq<T>, st0: Scroll<T>)
    requires |items| == 20 && !st0.isLoading
    ensures var st1 := Reset(st0, items, DefaultPageSize);
            && |st1.displayed| == 12 && Progress(st1, items) == 60.0
            && HasMoreItems(st1, items)
            && var st2 := EndLoad(BeginLoad(st1, true), items, DefaultPageSize).scroll;
               && |st2.displayed| == 20 && st2.displayed == items
               && Progress(st2, items) == 100.0 && !HasMoreItems(st2, items)
  {
    var st1 := Reset(st0, items, DefaultPageSize);
    ResetEstablishesInv(st0, items, DefaultPageSize);
    BeginLoadKeepsInv(st1, items, DefaultPageSize, true);
    var st2 := EndLoad(BeginLoad(st1, true), items, DefaultPageSize).scroll;
    EndLoadKeepsInv(BeginLoad(st1, true), items, DefaultPageSize);
    assert st2.page == 2;
  }
}
