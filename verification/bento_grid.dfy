/** The home page's mosaic: eight placeholders while loading, an empty
    state without posts, otherwise one tile per post (the first large, the
    next two medium, the rest standard) followed by an invitation card. */
module BentoGrid {
  import opened Posts
  import PostCard

  datatype TileKind = Large | Medium | Standard

  /** `isLarge`, `isMedium` and `index >= 3`: exactly one holds for each index. */
  function KindAt(index: nat): (k: TileKind)
    ensures k == Large <==> index == 0
    ensures k == Medium <==> index == 1 || index == 2
    ensures k == Standard <==> index >= 3
  {
    if index == 0 then Large
    else if index == 1 || index == 2 then Medium
    else Standard
  }

  /** The span classes a tile adds to its base classes. */
  function TileSpan(k: TileKind): string {
    match k
    case Large => "md:col-span-2 md:row-span-2"
    case Medium => "md:col-span-2 lg:col-span-2"
    case Standard => "md:col-span-2 lg:col-span-2"
  }

  const PlaceholderCount := 8

  /** The span classes of the placeholder at `i`; unlike the tiles, the
      third placeholder spans only on large screens. */
  function PlaceholderSpan(i: nat): string {
    if i == 0 then "md:col-span-2 md:row-span-2"
    else if i == 1 then "md:col-span-2 lg:col-span-2"
    else if i == 2 then "lg:col-span-2"
    else "md:col-span-2 lg:col-span-2"
  }

  /** What a post's tile shows. */
  datatype Tile = Tile(
    post: Post,
    kind: TileKind,
    badge: string,
    draft: bool,
    author: string,
    minutes: nat,
    showsExcerpt: bool)

  /** What the grid renders. */
  datatype Grid =
    | Placeholders(spans: seq<string>)
    | EmptyState
    | Tiles(tiles: seq<Tile>, invitation: bool)

  function TileFor(post: Post, index: nat): (t: Tile)
    ensures t.post == post && t.kind == KindAt(index)
    ensures t.draft <==> !post.published
    ensures t.showsExcerpt <==> index == 0
    ensures t.minutes == PostCard.ReadingTime(post.content)
    ensures t.badge == PostCard.Badge(post) && t.author == PostCard.AuthorName(post)
  {
    Tile(post, KindAt(index), PostCard.Badge(post), !post.published,
         PostCard.AuthorName(post), PostCard.ReadingTime(post.content), index == 0)
  }

  /** `posts.map((post, index) => ...)`. */
  function TilesFrom(posts: seq<Post>, from: nat): (r: seq<Tile>)
    ensures |r| == |posts|
    ensures forall i :: 0 <= i < |posts| ==> r[i] == TileFor(posts[i], from + i)
  {
    if |posts| == 0 then []
    else [TileFor(posts[0], from)] + TilesFrom(posts[1..], from + 1)
  }

  /** `BentoGrid`. */
  function Render(posts: seq<Post>, loading: bool): (g: Grid)
    ensures loading ==> g.Placeholders? && |g.spans| == PlaceholderCount
    ensures !loading && |posts| == 0 ==> g == EmptyState
    ensures !loading && |posts| > 0 ==> g.Tiles? && g.invitation
  {
    if loading then Placeholders(seq(PlaceholderCount, (i: int) requires 0 <= i => PlaceholderSpan(i)))
    else if |posts| == 0 then EmptyState
    else Tiles(TilesFrom(posts, 0), |posts| > 0)
  }

  /* ----- properties ----- */

  /** Outside loading, the grid has one tile per post, in the order given,
      each marked as a draft exactly when its post is unpublished. */
  lemma TilesFollowPosts(posts: seq<Post>)
    requires |posts| > 0
    ensures var g := Render(posts, false);
            && |g.tiles| == |posts|
            && (forall i :: 0 <= i < |posts| ==> g.tiles[i].post == posts[i])
            && (forall i :: 0 <= i < |posts| ==> (g.tiles[i].draft <==> !posts[i].published))
  {
  }

  /** Exactly the first tile is large and exactly the next two are medium. */
  lemma TileKinds(posts: seq<Post>)
    requires |posts| > 0
    ensures var t := Render(posts, false).tiles;
            && t[0].kind == Large
            && (forall i :: 0 <= i < |t| ==> (t[i].kind == Medium <==> i == 1 || i == 2))
            && (forall i :: 0 <= i < |t| ==> (t[i].kind == Standard <==> i >= 3))
  {
  }

  /** The loading placeholders differ from the tiles in one place only:
      the third. */
  lemma PlaceholdersMatchTiles(i: nat)
    requires i < PlaceholderCount
    ensures PlaceholderSpan(i) == TileSpan(KindAt(i)) <==> i != 2
  {
  }
}
