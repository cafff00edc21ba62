/** The post store hook: the local collection of posts with its loading
    flag and last error, and how each remote outcome changes it. Every
    remote call is a parameter (`Outcome`), so each operation is a pure
    state transition from the store before the call to the store after it. */
module PostStore {
  import opened Common
  import opened Posts
  import Seqs

  /** The hook's state: posts, loading flag, last error message. */
  datatype Store = Store(posts: seq<Post>, loading: bool, error: Option<string>)

  /** What an operation leaves behind and what its caller receives. */
  datatype Step<T> = Step(store: Store, result: Outcome<T>)

  /** The state when the hook mounts (loading until the first fetch ends). */
  function Initial(): Store {
    Store([], true, None)
  }

  const FetchPostsFallback := "Error fetching posts"
  const FetchUserPostsFallback := "Error fetching user posts"
  const NotAuthenticated := "User not authenticated"

  /** The fault `createPost` throws without a signed-in user. */
  const NotAuthenticatedFault := Fault("", NotAuthenticated, true)

  /** The message a failed fetch records: the error's own message if it is
      an `Error`, the fetch's fallback text otherwise. */
  function ErrorText(f: Fault, fallback: string): string {
    if f.isError then f.message else fallback
  }

  /* ----- fetching ----- */

  /** A fetch before its remote call returns: loading on, error cleared. */
  function BeginFetch(st: Store): (r: Store)
    ensures r.posts == st.posts && r.loading && r.error == None
  {
    st.(loading := true, error := None)
  }

  /** A fetch when its remote call returns. A success replaces the whole
      list (`data || []`); a failure keeps it and records the message. */
  function EndFetch(st: Store, server: Outcome<Option<seq<Post>>>, fallback: string): (r: Store)
    ensures !r.loading
    ensures server.Success? ==> r.posts == server.value.GetOr([]) && r.error == st.error
    ensures server.Failure? ==> r.posts == st.posts && r.error == Some(ErrorText(server.fault, fallback))
  {
    match server
    case Success(data) => st.(posts := data.GetOr([]), loading := false)
    case Failure(f) => st.(error := Some(ErrorText(f, fallback)), loading := false)
  }

  /** `fetchPosts`. */
  function FetchPosts(st: Store, server: Outcome<Option<seq<Post>>>): (r: Store)
    ensures !r.loading
    ensures server.Success? ==> r.posts == server.value.GetOr([]) && r.error == None
    ensures server.Failure? ==> r.posts == st.posts && r.error == Some(ErrorText(server.fault, FetchPostsFallback))
  {
    EndFetch(BeginFetch(st), server, FetchPostsFallback)
  }

  /** `fetchUserPosts`: without a user it returns at once and changes nothing. */
  function FetchUserPosts(st: Store, user: Option<User>, server: Outcome<Option<seq<Post>>>): (r: Store)
    ensures user.None? ==> r == st
    ensures user.Some? ==> !r.loading
    ensures user.Some? && server.Success? ==> r.posts == server.value.GetOr([]) && r.error == None
    ensures user.Some? && server.Failure? ==>
      r.posts == st.posts && r.error == Some(ErrorText(server.fault, FetchUserPostsFallback))
  {
    if user.None? then st
    else EndFetch(BeginFetch(st), server, FetchUserPostsFallback)
  }

  /* ----- local collection updates ----- */

  /** `[data, ...prev]`. */
  function Prepend(posts: seq<Post>, row: Post): (r: seq<Post>)
    ensures |r| == |posts| + 1 && r[0] == row && r[1..] == posts
  {
    [row] + posts
  }

  /** `prev.map(post => post.id === id ? data : post)`. */
  function ReplaceById(posts: seq<Post>, id: string, row: Post): (r: seq<Post>)
    ensures |r| == |posts|
    ensures forall i :: 0 <= i < |posts| && posts[i].id == id ==> r[i] == row
    ensures forall i :: 0 <= i < |posts| && posts[i].id != id ==> r[i] == posts[i]
  {
    if |posts| == 0 then []
    else [if posts[0].id == id then row else posts[0]] + ReplaceById(posts[1..], id, row)
  }

  /** The test `prev.filter(post => post.id !== id)` applies. */
  function OtherId(id: string): Post -> bool {
    (p: Post) => p.id != id
  }

  /** `prev.filter(post => post.id !== id)`. */
  function RemoveById(posts: seq<Post>, id: string): (r: seq<Post>)
    ensures !HasId(r, id)
    ensures forall p :: p in posts && p.id != id ==> p in r
    ensures forall p :: p in r ==> p in posts
  {
    var r := Seqs.Filter(posts, OtherId(id));
    assert forall p :: p in r ==> p.id != id;
    assert forall i :: 0 <= i < |posts| && posts[i].id != id ==> OtherId(id)(posts[i]);
    r
  }

  /* ----- remote operations ----- */

  /** The row `createPost` sends: the form's fields plus the author. */
  datatype InsertRow = InsertRow(fields: PostFields, authorId: string)

  /** The part of `createPost` before the remote call: it refuses without a
      signed-in user and otherwise binds the author to that user. */
  function CreateRequest(user: Option<User>, fields: PostFields): (r: Outcome<InsertRow>)
    ensures r.Failure? <==> user.None?
    ensures r.Failure? ==> r.fault == NotAuthenticatedFault
    ensures r.Success? ==> r.value.authorId == user.value.id && r.value.fields == fields
  {
    if user.None? then Failure(NotAuthenticatedFault)
    else Success(InsertRow(fields, user.value.id))
  }

  /** `createPost`: `server` is the insert's outcome, consulted only once the request is built. */
  function CreatePost(st: Store, user: Option<User>, fields: PostFields, server: Outcome<Post>): (r: Step<Post>)
    ensures r.store.loading == st.loading && r.store.error == st.error
    ensures user.None? ==> r.store == st && r.result == Failure(NotAuthenticatedFault)
    ensures user.Some? ==> r.result == server
    ensures r.result.Failure? ==> r.store == st
    ensures r.result.Success? ==> r.store.posts == [r.result.value] + st.posts
  {
    match CreateRequest(user, fields)
    case Failure(f) => Step(st, Failure(f))
    case Success(_) =>
      match server
      case Failure(f) => Step(st, Failure(f))
      case Success(row) => Step(st.(posts := Prepend(st.posts, row)), Success(row))
  }

  /** `updatePost`: `server` is the update's outcome. */
  function UpdatePost(st: Store, id: string, server: Outcome<Post>): (r: Step<Post>)
    ensures r.store.loading == st.loading && r.store.error == st.error
    ensures r.result == server
    ensures server.Failure? ==> r.store == st
    ensures server.Success? ==> r.store.posts == ReplaceById(st.posts, id, server.value)
  {
    match server
    case Failure(f) => Step(st, Failure(f))
    case Success(row) => Step(st.(posts := ReplaceById(st.posts, id, row)), Success(row))
  }

  /** `deletePost`: `server` is the delete's outcome. */
  function DeletePost(st: Store, id: string, server: Outcome<()>): (r: Step<()>)
    ensures r.store.loading == st.loading && r.store.error == st.error
    ensures r.result == server
    ensures server.Failure? ==> r.store == st
    ensures server.Success? ==> r.store.posts == RemoveById(st.posts, id)
  {
    match server
    case Failure(f) => Step(st, Failure(f))
    case Success(done) => Step(st.(posts := RemoveById(st.posts, id)), Success(done))
  }

  /** `getPostBySlug`: a pure read; the store is never touched. */
  function GetPostBySlug(st: Store, slug: string, server: Outcome<Post>): (r: Step<Post>)
    ensures r.store == st
    ensures r.result == server
  {
    Step(st, server)
  }

  /* ----- properties relating the operations ----- */

  /** Without a user, `createPost` does the same whatever the store would
      have answered: it fails before any remote call. */
  lemma CreateWithoutUserIsLocal(st: Store, fields: PostFields, a: Outcome<Post>, b: Outcome<Post>)
    ensures CreatePost(st, None, fields, a) == CreatePost(st, None, fields, b)
  {
  }

  /** Updating an id no row carries changes nothing. */
  lemma {:induction false} ReplaceAbsentIsNoop(posts: seq<Post>, id: string, row: Post)
    requires !HasId(posts, id)
    ensures ReplaceById(posts, id, row) == posts
  {
    if |posts| > 0 {
      assert !HasId(posts[1..], id) by {
        forall i | 0 <= i < |posts[1..]| ensures posts[1..][i].id != id {
          assert posts[1..][i] == posts[i + 1];
        }
      }
      ReplaceAbsentIsNoop(posts[1..], id, row);
    }
  }

  /** Deleting an id no row carries changes nothing. */
  lemma RemoveAbsentIsNoop(posts: seq<Post>, id: string)
    requires !HasId(posts, id)
    ensures RemoveById(posts, id) == posts
  {
    forall i | 0 <= i < |posts| ensures OtherId(id)(posts[i]) {
    }
    Seqs.FilterKeepsAll(posts, OtherId(id));
  }

  /** Deleting from a concatenation deletes from each part: the surviving
      rows keep their order. */
  lemma RemoveAppend(a: seq<Post>, b: seq<Post>, id: string)
    ensures RemoveById(a + b, id) == RemoveById(a, id) + RemoveById(b, id)
  {
    Seqs.FilterAppend(a, b, OtherId(id));
  }

  /** A single row is dropped exactly when it carries the id. With
      `RemoveAppend` this fixes the result of a delete on every list. */
  lemma RemoveSingle(p: Post, id: string)
    ensures RemoveById([p], id) == if p.id == id then [] else [p]
  {
  }

  /** Deleting an id some row carries shortens the list. */
  lemma RemovePresentShrinks(posts: seq<Post>, id: string)
    requires HasId(posts, id)
    ensures |RemoveById(posts, id)| < |posts|
  {
    var i :| 0 <= i < |posts| && posts[i].id == id;
    Seqs.FilterShrinks(posts, OtherId(id), i);
  }

  /** Deleting twice is deleting once. */
  lemma RemoveIdempotent(posts: seq<Post>, id: string)
    ensures RemoveById(RemoveById(posts, id), id) == RemoveById(posts, id)
  {
    Seqs.FilterIdempotent(posts, OtherId(id));
  }

  /** An update leaves every other row where it was: once the rows with
      that id are removed, before and after agree. */
  lemma {:induction false} ReplaceTouchesOnlyId(posts: seq<Post>, id: string, row: Post)
    requires row.id == id
    ensures RemoveById(ReplaceById(posts, id, row), id) == RemoveById(posts, id)
  {
    if |posts| > 0 {
      var r := ReplaceById(posts, id, row);
      Seqs.HeadTail(posts);
      Seqs.HeadTail(r);
      assert r[1..] == ReplaceById(posts[1..], id, row);
      ReplaceTouchesOnlyId(posts[1..], id, row);
    }
  }

  /** The later of two updates to the same id wins. */
  lemma {:induction false} ReplaceLastWins(posts: seq<Post>, id: string, first: Post, second: Post)
    requires first.id == id
    ensures ReplaceById(ReplaceById(posts, id, first), id, second) == ReplaceById(posts, id, second)
  {
    if |posts| > 0 {
      ReplaceLastWins(posts[1..], id, first, second);
    }
  }

  /** A successful create followed by a successful delete of the new row's
      (fresh) id restores the collection. */
  lemma CreateThenDeleteRestores(st: Store, user: User, fields: PostFields, row: Post)
    requires !HasId(st.posts, row.id)
    ensures DeletePost(CreatePost(st, Some(user), fields, Success(row)).store, row.id, Success(())).store == st
  {
    var after := [row] + st.posts;
    RemoveAbsentIsNoop(st.posts, row.id);
    Seqs.FilterAppend([row], st.posts, OtherId(row.id));
    assert Seqs.Filter([row], OtherId(row.id)) == [];
  }

  /** A successful create grows the collection by exactly one and keeps the
      rest in order; a successful delete of a present id shrinks it. */
  lemma WriteSizes(st: Store, user: User, fields: PostFields, row: Post, id: string, updated: Post)
    ensures |CreatePost(st, Some(user), fields, Success(row)).store.posts| == |st.posts| + 1
    ensures CreatePost(st, Some(user), fields, Success(row)).store.posts[0] == row
    ensures CreatePost(st, Some(user), fields, Success(row)).store.posts[1..] == st.posts
    ensures |UpdatePost(st, id, Success(updated)).store.posts| == |st.posts|
    ensures HasId(st.posts, id) ==> |DeletePost(st, id, Success(())).store.posts| < |st.posts|
    ensures !HasId(st.posts, id) ==> DeletePost(st, id, Success(())).store == st
  {
    if HasId(st.posts, id) {
      RemovePresentShrinks(st.posts, id);
    } else {
      RemoveAbsentIsNoop(st.posts, id);
    }
  }
}
