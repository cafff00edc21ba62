/** The application shell: which view is showing, which post is selected,
    how the handlers move between them, and the authentication gate in
    front of the editor. The post store's operations are reused as they
    are; their remote outcomes stay parameters. */
module BlogApp {
  import opened Common
  import opened Posts
  import PostStore

  datatype View = Home | PostsList | About | Create | Edit | Detail | Login | Terms | Privacy

  /** The shell's state: the current view and the selected post. */
  datatype App = App(view: View, selected: Option<Post>)

  function Initial(): App {
    App(Home, None)
  }

  /* ----- handlers that only move between views ----- */

  /** `handleCreatePost`: a fresh editor, nothing selected. */
  function StartCreate(app: App): (r: App)
    ensures r.view == Create && r.selected == None
  {
    App(Create, None)
  }

  /** `handleEditPost`. */
  function StartEdit(app: App, post: Post): (r: App)
    ensures r.view == Edit && r.selected == Some(post)
  {
    App(Edit, Some(post))
  }

  /** `handleViewPost`. */
  function OpenPost(app: App, post: Post): (r: App)
    ensures r.view == Detail && r.selected == Some(post)
  {
    App(Detail, Some(post))
  }

  /** The targets of the navigation handlers. */
  datatype Destination = ToHome | ToPosts | ToAbout | ToPrivacy | ToTerms

  function ViewOf(d: Destination): (v: View)
    ensures v in {Home, PostsList, About, Privacy, Terms}
  {
    match d
    case ToHome => Home
    case ToPosts => PostsList
    case ToAbout => About
    case ToPrivacy => Privacy
    case ToTerms => Terms
  }

  /** `handleNavigateHome`, `handleNavigatePosts`, `handleNavigateAbout`,
      `handleNavigatePrivacy`, `handleNavigateTerms`, and `handleBackToHome`
      (which is the same as going home). */
  function Navigate(app: App, d: Destination): (r: App)
    ensures r.selected == None
    ensures r.view == ViewOf(d)
  {
    App(ViewOf(d), None)
  }

  /** The header's login button and the pages' create buttons without a
      user: the view changes and the selection is kept. */
  function GoLogin(app: App): (r: App)
    ensures r.view == Login && r.selected == app.selected
  {
    app.(view := Login)
  }

  /** The login screen's success callback. */
  function LoginSucceeded(app: App): (r: App)
    ensures r.view == Home && r.selected == app.selected
  {
    app.(view := Home)
  }

  /** The create button the home, posts and about pages receive: the
      editor with a user, the login screen without one. */
  function RequestCreate(app: App, user: Option<User>): (r: App)
    ensures user.Some? ==> r == StartCreate(app)
    ensures user.None? ==> r == GoLogin(app)
  {
    if user.Some? then StartCreate(app) else GoLogin(app)
  }

  /* ----- handlers that call the store ----- */

  const DeleteConfirm := "¿Estás seguro de que quieres eliminar este post?"
  const DeleteAlert := "Error al eliminar el post"

  /** What a handler leaves behind: the shell, the store, and an alert if
      one was raised. */
  datatype Effect = Effect(app: App, store: PostStore.Store, alert: Option<string>)

  /** `handleDeletePost`: `confirmed` is the answer to the confirmation
      dialog, `server` the delete's outcome. */
  function DeletePost(app: App, st: PostStore.Store, post: Post, confirmed: bool, server: Outcome<()>): (r: Effect)
    ensures !confirmed ==> r == Effect(app, st, None)
    ensures confirmed && server.Failure? ==> r == Effect(app, st, Some(DeleteAlert))
    ensures confirmed && server.Success? ==>
      r.store == PostStore.DeletePost(st, post.id, server).store && r.alert == None
    ensures r.app.selected == app.selected
    ensures r.app.view != app.view ==>
      confirmed && server.Success? && app.view == Detail && app.selected.Some? && app.selected.value.id == post.id
  {
    if !confirmed then Effect(app, st, None)
    else
      var step := PostStore.DeletePost(st, post.id, server);
      match step.result
      case Failure(_) => Effect(app, step.store, Some(DeleteAlert))
      case Success(_) =>
        var leave := app.view == Detail && app.selected.Some? && app.selected.value.id == post.id;
        Effect(if leave then app.(view := Home) else app, step.store, None)
  }

  /** The store call a submission makes. */
  datatype Call = UpdateCall(id: string, fields: PostFields) | CreateCall(fields: PostFields)

  /** `handlePostSubmit`'s choice: update the selected post, or create one. */
  function SubmitCall(app: App, fields: PostFields): (c: Call)
    ensures c.UpdateCall? <==> app.selected.Some?
    ensures c.UpdateCall? ==> c.id == app.selected.value.id
    ensures c.fields == fields
  {
    match app.selected
    case Some(p) => UpdateCall(p.id, fields)
    case None => CreateCall(fields)
  }

  /** `handlePostSubmit`: `server` is the outcome of the chosen call. A
      failure is passed back to the form, with the view unchanged. */
  function PostSubmit(app: App, st: PostStore.Store, user: Option<User>, fields: PostFields, server: Outcome<Post>): (r: (App, PostStore.Step<Post>))
    ensures app.selected.Some? ==> r.1 == PostStore.UpdatePost(st, app.selected.value.id, server)
    ensures app.selected.None? ==> r.1 == PostStore.CreatePost(st, user, fields, server)
    ensures r.1.result.Success? ==> r.0 == app.(view := Home)
    ensures r.1.result.Failure? ==> r.0 == app && r.1.store == st
  {
    var step :=
      match SubmitCall(app, fields)
      case UpdateCall(id, _) => PostStore.UpdatePost(st, id, server)
      case CreateCall(f) => PostStore.CreatePost(st, user, f, server);
    (if step.result.Success? then app.(view := Home) else app, step)
  }

  /* ----- what is on screen ----- */

  /** What the shell renders: a spinner while the session is resolving,
      the login screen for the editor views without a user, else the view. */
  datatype Screen = Spinner | AuthScreen | Page(view: View)

  function ScreenFor(authLoading: bool, user: Option<User>, app: App): (s: Screen)
    ensures authLoading <==> s == Spinner
    ensures s == AuthScreen <==> !authLoading && user.None? && app.view in {Create, Edit}
    ensures s.Page? ==> s.view == app.view
  {
    if authLoading then Spinner
    else if user.None? && (app.view == Create || app.view == Edit) then AuthScreen
    else Page(app.view)
  }

  /** The editor is mounted inside the page. */
  predicate ShowsForm(authLoading: bool, user: Option<User>, app: App) {
    var s := ScreenFor(authLoading, user, app);
    s.Page? && (s.view == Create || s.view == Edit) && user.Some?
  }

  /** `isOwner`: the signed-in user wrote the selected post. */
  function IsOwner(user: Option<User>, post: Post): (b: bool)
    ensures b <==> user.Some? && user.value.id == post.authorId
  {
    match user
    case None => false
    case Some(u) => u.id == post.authorId
  }

  /* ----- properties ----- */

  /** The auth gate already guarantees a user whenever the page is rendered
      for the create or edit view, so the form's own `&& user` guard never
      decides anything: the form shows exactly when that page is rendered. */
  lemma FormNeedsUser(authLoading: bool, user: Option<User>, app: App)
    ensures ScreenFor(authLoading, user, app).Page? && app.view in {Create, Edit} ==> user.Some?
    ensures ShowsForm(authLoading, user, app) <==> ScreenFor(authLoading, user, app).Page? && app.view in {Create, Edit}
    ensures !authLoading && user.Some? ==> (ShowsForm(authLoading, user, app) <==> app.view in {Create, Edit})
  {
  }

  /** Every navigation handler forgets the selection, so a later submit
      creates rather than updates. */
  lemma NavigateThenSubmitCreates(app: App, d: Destination, fields: PostFields)
    ensures SubmitCall(Navigate(app, d), fields) == CreateCall(fields)
  {
  }

  /** Editing then submitting updates the post being edited. */
  lemma EditThenSubmitUpdates(app: App, post: Post, fields: PostFields)
    ensures SubmitCall(StartEdit(app, post), fields) == UpdateCall(post.id, fields)
  {
  }

  /** A declined confirmation changes nothing at all. */
  lemma DeclinedDeleteIsNoop(app: App, st: PostStore.Store, post: Post, a: Outcome<()>, b: Outcome<()>)
    ensures DeletePost(app, st, post, false, a) == DeletePost(app, st, post, false, b)
    ensures DeletePost(app, st, post, false, a) == Effect(app, st, None)
  {
  }

  /** Deleting the post on display leaves the detail view for home;
      deleting from any other view stays put. */
  lemma DeleteLeavesDetail(app: App, st: PostStore.Store, post: Post)
    ensures var r := DeletePost(app, st, post, true, Success(()));
            r.app.view == (if app.view == Detail && app.selected.Some? && app.selected.value.id == post.id then Home else app.view)
  {
  }

  /** A successful submission lands on home with the row stored: updated in
      place when editing, prepended when creating. */
  lemma SubmitStores(app: App, st: PostStore.Store, user: User, fields: PostFields, row: Post)
    ensures var r := PostSubmit(app, st, Some(user), fields, Success(row));
            && r.0.view == Home
            && (app.selected.Some? ==> r.1.store.posts == PostStore.ReplaceById(st.posts, app.selected.value.id, row))
            && (app.selected.None? ==> r.1.store.posts == [row] + st.posts)
  {
  }
}
