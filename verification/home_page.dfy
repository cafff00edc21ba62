/** The home page: the featured slice of the posts with its show-all
    toggle, and the three statistics above it. It receives the store's
    posts as they are, drafts included. */
module HomePage {
  import opened Common
  import opened Posts
  import Seqs
  import PostCard

  const FeaturedCount := 8

  /** `showAllPosts ? posts : posts.slice(0, 8)`. */
  function DisplayedPosts(posts: seq<Post>, showAll: bool): (r: seq<Post>)
    ensures showAll ==> r == posts
    ensures !showAll ==> r == posts[..Min(FeaturedCount, |posts|)]
  {
    if showAll then posts else Seqs.Slice(posts, 0, FeaturedCount)
  }

  /** The "see all" button is rendered only when there is more than the slice shows. */
  function ShowsToggle(posts: seq<Post>): (r: bool)
    ensures !r ==> DisplayedPosts(posts, false) == posts
    ensures r ==> |DisplayedPosts(posts, false)| == FeaturedCount < |posts|
  {
    |posts| > FeaturedCount
  }

  /** The button's click: `setShowAllPosts(!showAllPosts)`. */
  function Toggle(showAll: bool): (r: bool)
    ensures r != showAll
  {
    !showAll
  }

  /** The set `new Set(posts.map(p => p.author_id))`. */
  function AuthorIds(posts: seq<Post>): set<string> {
    set p | p in posts :: p.authorId
  }

  /** The "active writers" figure. */
  function WriterCount(posts: seq<Post>): (n: nat)
    ensures n <= |posts|
    ensures n >= 1 <==> |posts| >= 1
  {
    WritersAtMostPosts(posts);
    WritersExistIff(posts);
    |AuthorIds(posts)|
  }

  /** The "minutes of reading" figure: the posts' reading times added up. */
  function ReadingMinutes(posts: seq<Post>): (m: nat)
    ensures m >= |posts|
  {
    if |posts| == 0 then 0
    else PostCard.ReadingTime(posts[0].content) + ReadingMinutes(posts[1..])
  }

  /* ----- properties ----- */

  /** With no more than eight posts the toggle is absent, and whichever
      state it was left in, every post is displayed. */
  lemma FewPostsAllShown(posts: seq<Post>, showAll: bool)
    requires !ShowsToggle(posts)
    ensures DisplayedPosts(posts, showAll) == posts
  {
  }

  /** The slice is a prefix of the posts, at most eight long. */
  lemma DisplayedIsPrefix(posts: seq<Post>, showAll: bool)
    ensures var d := DisplayedPosts(posts, showAll);
            d <= posts && (!showAll ==> |d| <= FeaturedCount)
  {
  }

  /** The writers of a non-empty list: the first post's author and the rest's. */
  lemma AuthorIdsCons(posts: seq<Post>)
    requires |posts| > 0
    ensures AuthorIds(posts) == {posts[0].authorId} + AuthorIds(posts[1..])
  {
    forall id | id in AuthorIds(posts) ensures id in {posts[0].authorId} + AuthorIds(posts[1..]) {
      var q :| q in posts && q.authorId == id;
      if q != posts[0] {
        var i :| 0 <= i < |posts| && posts[i] == q;
        assert posts[1..][i - 1] == q;
      }
    }
    forall id | id in AuthorIds(posts[1..]) ensures id in AuthorIds(posts) {
      var q :| q in posts[1..] && q.authorId == id;
      assert q in posts;
    }
  }

  /** There are no more writers than posts. */
  lemma {:induction false} WritersAtMostPosts(posts: seq<Post>)
    ensures |AuthorIds(posts)| <= |posts|
  {
    if |posts| > 0 {
      WritersAtMostPosts(posts[1..]);
      AuthorIdsCons(posts);
    }
  }

  /** There is a writer exactly when there is a post. */
  lemma WritersExistIff(posts: seq<Post>)
    ensures |AuthorIds(posts)| >= 1 <==> |posts| >= 1
  {
    if |posts| >= 1 {
      assert posts[0].authorId in AuthorIds(posts);
    }
  }

  /** A further post by someone who already wrote does not add a writer;
      one by a newcomer adds exactly one. */
  lemma WriterCountGrows(posts: seq<Post>, p: Post)
    ensures p.authorId in AuthorIds(posts) ==> WriterCount(posts + [p]) == WriterCount(posts)
    ensures p.authorId !in AuthorIds(posts) ==> WriterCount(posts + [p]) == WriterCount(posts) + 1
  {
    var all := posts + [p];
    forall id | id in AuthorIds(all) ensures id in AuthorIds(posts) + {p.authorId} {
      var q :| q in all && q.authorId == id;
      if q != p {
        assert q in posts;
      }
    }
    forall id | id in AuthorIds(posts) ensures id in AuthorIds(all) {
      var q :| q in posts && q.authorId == id;
      assert q in all;
    }
    assert p in all;
    var before := AuthorIds(posts);
    assert AuthorIds(all) == before + {p.authorId};
    if p.authorId in before {
      assert before + {p.authorId} == before;
    } else {
      assert |before + {p.authorId}| == |before| + |{p.authorId}|;
    }
  }

  /** A single post contributes exactly its card's reading time. With
      `ReadingMinutesAppend` this fixes the total as the sum of the cards'
      reading times. */
  lemma ReadingMinutesSingle(p: Post)
    ensures ReadingMinutes([p]) == PostCard.ReadingTime(p.content)
  {
    assert [p][1..] == [];
  }

  /** The reading-minutes total adds up over a concatenation, as the
      `reduce` it models does. */
  lemma {:induction false} ReadingMinutesAppend(a: seq<Post>, b: seq<Post>)
    ensures ReadingMinutes(a + b) == ReadingMinutes(a) + ReadingMinutes(b)
  {
    if |a| == 0 {
      assert a + b == b;
    } else {
      assert (a + b)[1..] == a[1..] + b;
      ReadingMinutesAppend(a[1..], b);
    }
  }
}
