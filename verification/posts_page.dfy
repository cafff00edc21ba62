/** The feed of the posts page: published posts only, narrowed by a
    case-insensitive search over title, excerpt and author name, then
    stably sorted by newest, oldest or title. */
module PostsPage {
  import opened Common
  import opened Posts
  import Text
  import Seqs
  import Sorting

  datatype SortBy = Newest | Oldest | ByTitle

  /** The page's state: the search box and the sort selector. */
  datatype Controls = Controls(searchTerm: string, sortBy: SortBy)

  function InitialControls(): Controls {
    Controls("", Newest)
  }

  /** The filter `post => post.published`. */
  function IsPublished(): Post -> bool {
    (p: Post) => p.published
  }

  /** A post matches when the lower-cased term occurs in its lower-cased
      title, excerpt or (when the author is joined) author full name. */
  function Matches(p: Post, term: string): (r: bool)
    ensures term == "" ==> r
    ensures r ==> || |term| <= |p.title|
                  || |term| <= |p.excerpt|
                  || (p.profiles.Some? && |term| <= |p.profiles.value.fullName|)
  {
    var t := Text.Lower(term);
    Text.ContainsEmpty(Text.Lower(p.title));
    Text.ContainsLength(Text.Lower(p.title), t);
    Text.ContainsLength(Text.Lower(p.excerpt), t);
    var name := if p.profiles.Some? then p.profiles.value.fullName else "";
    Text.ContainsLength(Text.Lower(name), t);
    || Text.Contains(Text.Lower(p.title), t)
    || Text.Contains(Text.Lower(p.excerpt), t)
    || (p.profiles.Some? && Text.Contains(Text.Lower(p.profiles.value.fullName), t))
  }

  function MatchesTerm(term: string): Post -> bool {
    (p: Post) => Matches(p, term)
  }

  /** `publishedPosts`. */
  function PublishedPosts(posts: seq<Post>): (r: seq<Post>)
    ensures |r| <= |posts|
    ensures forall p :: p in r <==> p in posts && p.published
    ensures multiset(r) <= multiset(posts)
  {
    var r := Seqs.Filter(posts, IsPublished());
    assert forall i :: 0 <= i < |posts| && posts[i].published ==> IsPublished()(posts[i]);
    r
  }

  /** `filteredPosts`. */
  function FilteredPosts(published: seq<Post>, term: string): (r: seq<Post>)
    ensures |r| <= |published|
    ensures forall p :: p in r <==> p in published && Matches(p, term)
    ensures multiset(r) <= multiset(published)
  {
    var r := Seqs.Filter(published, MatchesTerm(term));
    assert forall i :: 0 <= i < |published| && Matches(published[i], term) ==> MatchesTerm(term)(published[i]);
    r
  }

  /** The comparators of the sort selector. `titleCmp` stands for
      `localeCompare`, whose collation is left abstract. */
  function Compare(order: SortBy, titleCmp: (string, string) -> int, a: Post, b: Post): (r: int)
    ensures order == Newest ==> (r < 0 <==> a.createdAt > b.createdAt) && (r > 0 <==> a.createdAt < b.createdAt)
    ensures order == Oldest ==> (r < 0 <==> a.createdAt < b.createdAt) && (r > 0 <==> a.createdAt > b.createdAt)
    ensures order != ByTitle ==> (r == 0 <==> a.createdAt == b.createdAt)
    ensures order == ByTitle ==> r == titleCmp(a.title, b.title)
  {
    match order
    case Newest => b.createdAt - a.createdAt
    case Oldest => a.createdAt - b.createdAt
    case ByTitle => titleCmp(a.title, b.title)
  }

  function Comparator(order: SortBy, titleCmp: (string, string) -> int): ((Post, Post) -> int) {
    (a: Post, b: Post) => Compare(order, titleCmp, a, b)
  }

  /** `sortedPosts`. */
  function SortedPosts(filtered: seq<Post>, order: SortBy, titleCmp: (string, string) -> int): (r: seq<Post>)
    ensures multiset(r) == multiset(filtered)
  {
    Sorting.StableSort(filtered, Comparator(order, titleCmp))
  }

  /** The whole derivation, from the store's posts to the cards shown. */
  function Feed(posts: seq<Post>, c: Controls, titleCmp: (string, string) -> int): (r: seq<Post>)
    ensures forall p :: p in r ==> p in posts && p.published && Matches(p, c.searchTerm)
    ensures forall p :: p in posts && p.published && Matches(p, c.searchTerm) ==> p in r
    ensures |r| <= |PublishedPosts(posts)| <= |posts|
  {
    var filtered := FilteredPosts(PublishedPosts(posts), c.searchTerm);
    var r := SortedPosts(filtered, c.sortBy, titleCmp);
    assert forall p :: p in r <==> p in filtered by {
      forall p ensures p in r <==> p in filtered {
        assert p in r <==> p in multiset(r);
        assert p in filtered <==> p in multiset(filtered);
      }
    }
    assert |r| == |multiset(r)| == |multiset(filtered)| == |filtered|;
    r
  }

  /* ----- properties ----- */

  /** The published filter keeps the store's order: it distributes over
      concatenation, and a single post stays exactly when it is published. */
  lemma PublishedAppend(a: seq<Post>, b: seq<Post>)
    ensures PublishedPosts(a + b) == PublishedPosts(a) + PublishedPosts(b)
  {
    Seqs.FilterAppend(a, b, IsPublished());
  }

  lemma PublishedSingle(p: Post)
    ensures PublishedPosts([p]) == if p.published then [p] else []
  {
    assert [p][1..] == [];
  }

  /** The search keeps the order of the published posts in the same way. */
  lemma FilteredAppend(a: seq<Post>, b: seq<Post>, term: string)
    ensures FilteredPosts(a + b, term) == FilteredPosts(a, term) + FilteredPosts(b, term)
  {
    Seqs.FilterAppend(a, b, MatchesTerm(term));
  }

  lemma FilteredSingle(p: Post, term: string)
    ensures FilteredPosts([p], term) == if Matches(p, term) then [p] else []
  {
    assert [p][1..] == [];
  }

  /** A published post is shown exactly when it matches the term. */
  lemma SearchIff(posts: seq<Post>, c: Controls, titleCmp: (string, string) -> int, p: Post)
    requires p in posts && p.published
    ensures p in Feed(posts, c, titleCmp) <==> Matches(p, c.searchTerm)
  {
  }

  /** An empty search keeps every published post. */
  lemma EmptySearchKeepsAll(p: Post)
    ensures Matches(p, "")
  {
    Text.ContainsEmpty(Text.Lower(p.title));
  }

  /** Searching ignores the case of ASCII letters in the term. */
  lemma SearchIgnoresCase(p: Post, term: string)
    ensures Matches(p, Text.Lower(term)) <==> Matches(p, term)
  {
    Text.LowerIdempotent(term);
  }

  /** The three comparators are consistent, given a consistent title collation. */
  lemma ComparatorConsistent(order: SortBy, titleCmp: (string, string) -> int)
    requires order == ByTitle ==> Sorting.IsComparator(titleCmp)
    ensures Sorting.IsComparator(Comparator(order, titleCmp))
  {
    var cmp := Comparator(order, titleCmp);
    forall a, b
      ensures Sorting.Precedes(cmp, a, b) <==> cmp(b, a) >= 0
    {
      if order == ByTitle {
        assert Sorting.Precedes(titleCmp, a.title, b.title) <==> titleCmp(b.title, a.title) >= 0;
      }
    }
    forall a, b, c | Sorting.Precedes(cmp, a, b) && Sorting.Precedes(cmp, b, c)
      ensures Sorting.Precedes(cmp, a, c)
    {
      if order == ByTitle {
        assert Sorting.Precedes(titleCmp, a.title, b.title) && Sorting.Precedes(titleCmp, b.title, c.title);
      }
    }
  }

  /** Newest puts later timestamps first; oldest puts earlier ones first. */
  lemma SortOrders(filtered: seq<Post>, titleCmp: (string, string) -> int)
    ensures var r := SortedPosts(filtered, Newest, titleCmp);
            forall i, j :: 0 <= i < j < |r| ==> r[i].createdAt >= r[j].createdAt
    ensures var r := SortedPosts(filtered, Oldest, titleCmp);
            forall i, j :: 0 <= i < j < |r| ==> r[i].createdAt <= r[j].createdAt
  {
    ComparatorConsistent(Newest, titleCmp);
    ComparatorConsistent(Oldest, titleCmp);
    Sorting.SortSorted(filtered, Comparator(Newest, titleCmp));
    Sorting.SortSorted(filtered, Comparator(Oldest, titleCmp));
  }

  /** Sorting by title orders the titles by the collation. */
  lemma SortOrdersTitles(filtered: seq<Post>, titleCmp: (string, string) -> int)
    requires Sorting.IsComparator(titleCmp)
    ensures var r := SortedPosts(filtered, ByTitle, titleCmp);
            forall i, j :: 0 <= i < j < |r| ==> titleCmp(r[i].title, r[j].title) <= 0
  {
    ComparatorConsistent(ByTitle, titleCmp);
    Sorting.SortSorted(filtered, Comparator(ByTitle, titleCmp));
  }

  /** Posts the comparator ranks equal keep their filtered order: for every
      post k, the posts tied with k appear in the same order before and after. */
  lemma SortKeepsTies(filtered: seq<Post>, order: SortBy, titleCmp: (string, string) -> int, k: Post)
    requires order == ByTitle ==> Sorting.IsComparator(titleCmp)
    ensures Sorting.Ties(SortedPosts(filtered, order, titleCmp), Comparator(order, titleCmp), k)
         == Sorting.Ties(filtered, Comparator(order, titleCmp), k)
  {
    ComparatorConsistent(order, titleCmp);
    Sorting.SortStable(filtered, Comparator(order, titleCmp), k);
  }

  /** No two positions share a timestamp. */
  ghost predicate DistinctTimes(s: seq<Post>) {
    forall i, j :: 0 <= i < j < |s| ==> s[i].createdAt != s[j].createdAt
  }

  /** Reversing a strictly newest-first list gives a strictly oldest-first one. */
  lemma ReverseNewestIsOldest(down: seq<Post>, titleCmp: (string, string) -> int)
    requires Sorting.StrictlySorted(down, Comparator(Newest, titleCmp))
    ensures Sorting.StrictlySorted(Seqs.Reverse(down), Comparator(Oldest, titleCmp))
  {
    var rev := Seqs.Reverse(down);
    forall i, j | 0 <= i < j < |rev|
      ensures Comparator(Oldest, titleCmp)(rev[i], rev[j]) < 0
    {
      assert Comparator(Newest, titleCmp)(down[|down| - 1 - j], down[|down| - 1 - i]) < 0;
    }
  }

  /** Distinct timestamps leave the date sort strict. */
  lemma DateSortStrict(filtered: seq<Post>, order: SortBy, titleCmp: (string, string) -> int)
    requires order != ByTitle
    requires DistinctTimes(filtered)
    ensures Sorting.StrictlySorted(SortedPosts(filtered, order, titleCmp), Comparator(order, titleCmp))
  {
    ComparatorConsistent(order, titleCmp);
    Sorting.SortStrict(filtered, Comparator(order, titleCmp));
  }

  /** With distinct timestamps, oldest-first is exactly newest-first reversed. */
  lemma OldestReversesNewest(filtered: seq<Post>, titleCmp: (string, string) -> int)
    requires DistinctTimes(filtered)
    ensures SortedPosts(filtered, Oldest, titleCmp) == Seqs.Reverse(SortedPosts(filtered, Newest, titleCmp))
  {
    var down := SortedPosts(filtered, Newest, titleCmp);
    DateSortStrict(filtered, Oldest, titleCmp);
    DateSortStrict(filtered, Newest, titleCmp);
    ReverseNewestIsOldest(down, titleCmp);
    Seqs.ReversePermutes(down);
    ComparatorConsistent(Oldest, titleCmp);
    Sorting.StrictlySortedUnique(SortedPosts(filtered, Oldest, titleCmp), Seqs.Reverse(down), Comparator(Oldest, titleCmp));
  }
}
