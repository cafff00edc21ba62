/** The post row as the remote store returns it, and the user identity
    the client sees. */
module Posts {
  import opened Common

  /** The author fields the feed queries join onto each post. */
  datatype AuthorInfo = AuthorInfo(fullName: string, username: string)

  /** One row of the `posts` table. Timestamps are modelled as integers
      (milliseconds since the epoch) instead of ISO strings. */
  datatype Post = Post(
    id: string,
    title: string,
    content: string,
    excerpt: string,
    slug: string,
    authorId: string,
    published: bool,
    coverImage: Option<string>,
    createdAt: int,
    updatedAt: int,
    profiles: Option<AuthorInfo>
  )

  /** The fields the post form submits, together with the published flag
      the form's two buttons choose. */
  datatype PostFields = PostFields(
    title: string,
    excerpt: string,
    content: string,
    slug: string,
    coverImage: Option<string>,
    published: bool
  )

  /** The signed-in identity; only its id matters to the core. */
  datatype User = User(id: string)

  /** True when some post of `posts` has the id `id`. */
  predicate HasId(posts: seq<Post>, id: string) {
    exists i :: 0 <= i < |posts| && posts[i].id == id
  }
}
