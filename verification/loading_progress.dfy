/** The panel under a progressively revealed list: a completion message,
    a loading indicator with a rounded percentage, or nothing. */
module LoadingProgress {
  import InfiniteScroll

  datatype Panel =
    | AllSeen                     // "you have seen all the posts", with a back-to-top button
    | LoadingMore(percent: int)   // spinner, progress bar and the rounded percentage
    | NoPanel

  /** `Math.round`: the nearest integer, halves rounded up. */
  function RoundHalfUp(x: real): (n: int)
    ensures n as real - 0.5 <= x < n as real + 0.5
  {
    (x + 0.5).Floor
  }

  /** Which panel the component renders. */
  function ChoosePanel(isLoading: bool, progress: real, hasMoreItems: bool): (r: Panel)
    ensures r == AllSeen <==> !isLoading && !hasMoreItems && progress >= 100.0
    ensures isLoading ==> r == LoadingMore(RoundHalfUp(progress))
    ensures !isLoading && hasMoreItems ==> r == NoPanel
    ensures !isLoading && r != AllSeen ==> r == NoPanel
  {
    if !isLoading && !hasMoreItems && progress >= 100.0 then AllSeen
    else if isLoading then LoadingMore(RoundHalfUp(progress))
    else NoPanel
  }

  /** The panel for a scroll state of the hook. */
  function PanelFor<T>(st: InfiniteScroll.Scroll<T>, items: seq<T>): (r: Panel)
    ensures r == AllSeen <==> !st.isLoading && |items| > 0 && |st.displayed| >= |items|
    ensures st.isLoading ==> r.LoadingMore?
    ensures !st.isLoading && r != AllSeen ==> r == NoPanel
  {
    ChoosePanel(st.isLoading, InfiniteScroll.Progress(st, items), InfiniteScroll.HasMoreItems(st, items))
  }

  /** Fed by the hook, the completion panel shows exactly when the load is
      over and every one of a non-empty list of items is shown; an empty
      list never shows it. */
  lemma AllSeenExactly<T>(st: InfiniteScroll.Scroll<T>, items: seq<T>, pageSize: int)
    requires InfiniteScroll.Inv(st, items, pageSize)
    ensures PanelFor(st, items) == AllSeen <==> !st.isLoading && |items| > 0 && |st.displayed| == |items|
    ensures |items| == 0 ==> PanelFor(st, items) != AllSeen
  {
    InfiniteScroll.ProgressBounds(st, items, pageSize);
  }

  /** While loading, the label is 100 once everything is shown. */
  lemma LabelAtCompletion<T>(st: InfiniteScroll.Scroll<T>, items: seq<T>, pageSize: int)
    requires InfiniteScroll.Inv(st, items, pageSize)
    requires st.isLoading && |items| > 0 && |st.displayed| == |items|
    ensures PanelFor(st, items) == LoadingMore(100)
  {
    InfiniteScroll.ProgressBounds(st, items, pageSize);
  }
}
