# oscar-blog in Dafny

A model of the client-side core of oscar-blog, a small blogging application
(React front end over a Supabase back end). It covers:

- the post store hook (`usePosts`): its local list of posts, its loading flag,
  its last error, and how each remote reply changes them;
- the posts page's feed: published posts only, a case-insensitive search,
  and a stable sort by newest, oldest or title;
- the progressive-reveal hook (`useInfiniteScroll`) and the progress panel
  under it (`LoadingProgress`);
- the post editor (`PostForm`): its validation schema with the Spanish
  messages, the slug it derives from the title, and its submit buttons;
- the application shell (`App.tsx`): views, the selected post, the
  authentication gate in front of the editor, and the create, edit, delete
  and submit handlers;
- the derived figures of the post card, the home page's statistics and
  featured slice, and the home page's mosaic (`BentoGrid`);
- the cookie banner with its storage helpers and hook (`CookieConsent`);
- `ensureUserProfile`, which creates a profile row the first time a user
  signs in.

Every remote call (the Supabase queries, inserts, updates and deletes) is a
parameter of type `Outcome<T>`, either `Success(value)` or `Failure(fault)`.
Each operation is then a pure function from the state before the call and
the call's reply to the state after it and what the caller receives.
A thrown error is a `Failure`. Browser storage is a map from keys to records.
The current time, `window.confirm`'s answer and zod's URL check are
parameters too.

Modules follow the source files:

- `PostStore`: `usePosts.ts`.
- `PostsPage`: `PostsPage.tsx`.
- `InfiniteScroll`: `useInfiniteScroll.ts`.
- `LoadingProgress`: `LoadingProgress.tsx`.
- `PostForm`: `PostForm.tsx`.
- `BlogApp`: `App.tsx`.
- `PostCard`: `ui/PostCard.tsx`.
- `HomePage`: `HomePage.tsx`.
- `BentoGrid`: `BentoGrid.tsx`.
- `CookieConsent`: `CookieConsent.tsx`.
- `ProfileUtils`: `profileUtils.ts`.

They rest on five helper modules:

- `Common`: `Option`, `Outcome`, `Fault`.
- `Posts`: the post row as the queries return it.
- `Text`: ASCII case mapping, the JavaScript whitespace class, `includes`,
  `split`.
- `Seqs`: `filter`, `reverse`, and `slice` with JavaScript's index rules.
- `Sorting`: a stable insertion sort. It stands for `Array.prototype.sort`,
  which is stable since ECMAScript 2019. Its sortedness, permutation and
  stability lemmas are proved for any consistent comparator.

Behaviour worth noting:

- The posts page offers three sort orders: newest, oldest and title. There
  is no "trending" order.
- `fetchUserPosts` without a signed-in user returns at once and changes
  nothing. It does not fail with an "unauthenticated" error.
- `createPost` checks nothing but the user. A malformed slug is refused
  earlier, by the editor's schema, before `onSubmit` is ever called
  (`PostForm.BadSlugRejected`).
- Only the two fetches set or clear the store's error. Create, update and
  delete leave it as it was and hand their failure to the caller.
- Deleting an id that is not in the local list succeeds and changes nothing
  (`PostStore.RemoveAbsentIsNoop`).
- The reveal hook resets to the first page when its list of items changes.
  No page of the application uses the hook or its progress panel, so the
  posts page shows the whole sorted feed at once.

## Model

| member | source | states |
|---|---|---|
| `PostStore.BeginFetch` | src/hooks/usePosts.ts:53-54 | A fetch starts by turning loading on and clearing the previous error; the list is untouched until the reply arrives |
| `PostStore.FetchPosts` | src/hooks/usePosts.ts:51-76 | Whatever the reply, loading ends off. A success replaces the whole list with the returned rows (empty when none came back) and leaves no error. A failure keeps the old list and records the error's own message if it is an `Error`, else "Error fetching posts" |
| `PostStore.FetchUserPosts` | src/hooks/usePosts.ts:78-105 | Without a user the store is left exactly as it was. With one it behaves like the feed fetch, with "Error fetching user posts" as the fallback message |
| `PostStore.EndFetch` | src/hooks/usePosts.ts:68-75 | A fetch's reply always ends loading. A success takes the returned rows, or none, and keeps the error field. A failure keeps the rows and records the error's message or the fallback |
| `PostStore.Prepend` | src/hooks/usePosts.ts:129 | The new row comes first, followed by the previous list unchanged |
| `PostStore.ReplaceById` | src/hooks/usePosts.ts:149-151 | The list keeps its length and order. Every row with the id becomes the returned row, and every other row stays where it was |
| `PostStore.RemoveById` | src/hooks/usePosts.ts:163 | A row is dropped exactly when it has the id: no row with the id survives, every other row survives, and nothing new appears |
| `PostStore.RemoveAppend` | src/hooks/usePosts.ts:163 | Removing from two lists joined is removing from each and joining the results, so the surviving rows keep their order |
| `PostStore.RemoveSingle` | src/hooks/usePosts.ts:163 | A one-row list loses its row exactly when the row has the id |
| `PostStore.CreateRequest` | src/hooks/usePosts.ts:107-117 | Without a user the request fails with "User not authenticated". Otherwise the row sent carries the form's fields with the author bound to that user |
| `PostStore.CreatePost` | src/hooks/usePosts.ts:107-131 | Loading and error never change. Without a user nothing happens and the call fails. A failed insert leaves the store exactly as it was. A successful one puts the returned row in front of the previous list |
| `PostStore.UpdatePost` | src/hooks/usePosts.ts:133-153 | The caller gets the reply as it came. A failure changes nothing. A success replaces the row in place with the returned row |
| `PostStore.DeletePost` | src/hooks/usePosts.ts:155-164 | The caller gets the reply as it came. A failure changes nothing. A success removes the id's rows from the list |
| `PostStore.GetPostBySlug` | src/hooks/usePosts.ts:166-183 | Looking up a post by slug never changes the store and returns the reply as it came |
| `PostStore.CreateWithoutUserIsLocal` | src/hooks/usePosts.ts:108 | Without a user, create behaves the same whatever the server would have answered, so no remote call matters |
| `PostStore.ReplaceAbsentIsNoop` | src/hooks/usePosts.ts:149-151 | Updating an id that no local row carries leaves the list unchanged |
| `PostStore.RemoveAbsentIsNoop` | src/hooks/usePosts.ts:163 | Deleting an id that no local row carries leaves the list unchanged |
| `PostStore.RemovePresentShrinks` | src/hooks/usePosts.ts:163 | Deleting an id that some row carries makes the list strictly shorter |
| `PostStore.RemoveIdempotent` | src/hooks/usePosts.ts:163 | Deleting the same id twice leaves the same list as deleting it once |
| `PostStore.ReplaceTouchesOnlyId` | src/hooks/usePosts.ts:149-151 | Once rows with the updated id are set aside, the list after an update equals the list before it |
| `PostStore.ReplaceLastWins` | src/hooks/usePosts.ts:149-151 | Two updates of the same id leave the list as the second update alone would |
| `PostStore.CreateThenDeleteRestores` | src/hooks/usePosts.ts:129-163 | A successful create followed by a successful delete of the new row's fresh id gives back the original store |
| `PostStore.WriteSizes` | src/hooks/usePosts.ts:107-164 | Successful writes change the list's size as follows. A create adds exactly one row, the new one in front of the old rows in their order. An update keeps the size. A delete of a present id shrinks the list. A delete of an absent id leaves the store identical |
| `InfiniteScroll.Reset` | src/hooks/useInfiniteScroll.ts:23-27 | When the items change, the cursor returns to page 1 and the shown items are the first page of the new items. A pending load stays pending |
| `InfiniteScroll.BeginLoad` | src/hooks/useInfiniteScroll.ts:30-33 | A load request does nothing while a load is pending or when the caller says there is no more. Otherwise it marks a load pending and shows nothing new yet |
| `InfiniteScroll.EndLoad` | src/hooks/useInfiniteScroll.ts:36-49 | The load always ends. The next slice is appended and the page advanced exactly when that slice is non-empty, and only then is `onLoadMore` notified |
| `InfiniteScroll.OnSentinel` | src/hooks/useInfiniteScroll.ts:59-63 | A visible sentinel starts a load exactly when more items remain and the caller says there is more. An invisible sentinel, no more pages, or every item already shown changes nothing |
| `InfiniteScroll.HasMoreItems` | src/hooks/useInfiniteScroll.ts:89 | Items remain exactly when the list is non-empty and progress is below 100 |
| `InfiniteScroll.Progress` | src/hooks/useInfiniteScroll.ts:90 | Progress is the shown items as a percentage of the list: 0 for an empty list, never negative, at most 100 while the shown items fit, at least 100 exactly when all are shown, and 100 exactly when the two counts agree |
| `InfiniteScroll.SentinelKeepsInv` | src/hooks/useInfiniteScroll.ts:59-63 | Whatever the sentinel does, the shown items stay a prefix of whole pages of the list |
| `InfiniteScroll.ResetEstablishesInv` | src/hooks/useInfiniteScroll.ts:23-27 | After a reset, the shown items are exactly the first whole page of the items (all of them if fewer) |
| `InfiniteScroll.BeginLoadKeepsInv` | src/hooks/useInfiniteScroll.ts:30-33 | Starting a load keeps the shown items a prefix of whole pages |
| `InfiniteScroll.EndLoadKeepsInv` | src/hooks/useInfiniteScroll.ts:36-48 | Completing a load keeps the shown items exactly the first `page` pages of the items, clamped to their length |
| `InfiniteScroll.InvPrefix` | src/hooks/useInfiniteScroll.ts:37-46 | The shown items are always a prefix of the items and never outnumber them |
| `InfiniteScroll.ProgressBounds` | src/hooks/useInfiniteScroll.ts:89-90 | Progress stays between 0 and 100. It is 100 exactly when the list is non-empty and nothing more is left to show. An empty list reports 0 |
| `InfiniteScroll.WorkedExample` | src/hooks/useInfiniteScroll.ts:12-49 | For 20 items with the default page of 12, progress goes from 12 shown (60%, more to come) to all 20 (100%, nothing more) after one load |
| `LoadingProgress.RoundHalfUp` | src/components/ui/LoadingProgress.tsx:47 | The label is the integer nearest the progress, with halves rounded up |
| `LoadingProgress.ChoosePanel` | src/components/ui/LoadingProgress.tsx:13-60 | The completion panel shows exactly when nothing is loading, nothing is left, and progress has reached 100. A pending load shows the rounded percentage. When nothing is loading and the completion panel is not due, nothing shows |
| `LoadingProgress.PanelFor` | src/components/ui/LoadingProgress.tsx:13-60 | Fed by the hook, the completion panel shows exactly when nothing is loading and every item of a non-empty list is shown. A pending load always shows a percentage; otherwise nothing shows |
| `LoadingProgress.AllSeenExactly` | src/components/ui/LoadingProgress.tsx:13 | Fed by the hook, the completion panel shows exactly when no load is pending and every item of a non-empty list is shown. An empty list never shows it |
| `LoadingProgress.LabelAtCompletion` | src/components/ui/LoadingProgress.tsx:34-47 | A load still pending after everything is shown is labelled 100% |
| `PostsPage.PublishedPosts` | src/components/pages/PostsPage.tsx:43 | A post is kept exactly when it is in the store's list and is published, and no post is kept more often than it occurs |
| `PostsPage.PublishedAppend` | src/components/pages/PostsPage.tsx:43 | Filtering two lists joined is filtering each and joining the results, so the published posts keep the store's order |
| `PostsPage.PublishedSingle` | src/components/pages/PostsPage.tsx:43 | A one-post list keeps its post exactly when it is published |
| `PostsPage.Matches` | src/components/pages/PostsPage.tsx:45-49 | The empty term matches every post. A matching term is no longer than the title, the excerpt, or the joined author's name |
| `PostsPage.FilteredPosts` | src/components/pages/PostsPage.tsx:45-49 | A published post is kept exactly when the search term matches its title, excerpt or author name, and no post is kept more often than it occurs |
| `PostsPage.FilteredAppend` | src/components/pages/PostsPage.tsx:45-49 | The search distributes over joined lists, so the matching posts keep their order |
| `PostsPage.FilteredSingle` | src/components/pages/PostsPage.tsx:45-49 | A one-post list keeps its post exactly when the post matches the term |
| `PostsPage.Compare` | src/components/pages/PostsPage.tsx:51-62 | Newest puts the later post first and oldest the earlier one; either reports a tie exactly for equal times. Title order is the collation's verdict |
| `PostsPage.SortedPosts` | src/components/pages/PostsPage.tsx:51-62 | Sorting neither loses nor duplicates a post; the result is a permutation of its input |
| `PostsPage.Feed` | src/components/pages/PostsPage.tsx:43-62 | The feed shows exactly the published posts that match the term, and no more of them than there are published posts |
| `PostsPage.SearchIff` | src/components/pages/PostsPage.tsx:45-49 | A published post is in the feed if and only if it matches the search term, whatever the sort order |
| `PostsPage.EmptySearchKeepsAll` | src/components/pages/PostsPage.tsx:45-49 | Every post matches the empty term, so an empty search hides nothing |
| `PostsPage.SearchIgnoresCase` | src/components/pages/PostsPage.tsx:46-48 | Lower-casing the term first changes no match |
| `PostsPage.ComparatorConsistent` | src/components/pages/PostsPage.tsx:51-62 | Each of the three comparators is a consistent total preorder, the title one whenever the collation is |
| `PostsPage.SortOrders` | src/components/pages/PostsPage.tsx:53-56 | Newest puts later creation times first and oldest puts earlier ones first, across the whole list |
| `PostsPage.SortOrdersTitles` | src/components/pages/PostsPage.tsx:57-58 | Sorting by title lists the titles in the collation's order |
| `PostsPage.SortKeepsTies` | src/components/pages/PostsPage.tsx:51-62 | The sort is stable: posts the comparator ranks equal keep the order the filter gave them |
| `PostsPage.ReverseNewestIsOldest` | src/components/pages/PostsPage.tsx:53-56 | Reversing a strictly newest-first list gives a strictly oldest-first list |
| `PostsPage.DateSortStrict` | src/components/pages/PostsPage.tsx:53-56 | With distinct creation times, a date sort leaves the times strictly ordered |
| `PostsPage.OldestReversesNewest` | src/components/pages/PostsPage.tsx:53-56 | With distinct creation times, oldest-first is exactly newest-first reversed |
| `PostForm.StripSpecial` | src/components/blog/PostForm.tsx:74 | Only lower-case letters, digits, dashes and whitespace survive, every one of them does, and nothing is added |
| `PostForm.StripSpecialAppend` | src/components/blog/PostForm.tsx:74 | Removing special characters distributes over joined strings, so the kept characters stay in their order |
| `PostForm.StripSpecialSingle` | src/components/blog/PostForm.tsx:74 | A single character is kept exactly when it is a lower-case letter, digit, dash or whitespace |
| `PostForm.Collapse` | src/components/blog/PostForm.tsx:75-76 | Collapsing runs never lengthens a string, introduces no character except the replacement, and empties only the empty string when no run is open before it |
| `PostForm.CollapseSingle` | src/components/blog/PostForm.tsx:75-76 | One class member becomes one replacement, or nothing when a run is already open, and any other character is kept |
| `PostForm.CollapseAppend` | src/components/blog/PostForm.tsx:75-76 | Collapsing two strings joined is collapsing each, with the open run carried across the join. With the one-character case this fixes the result: other characters in order, one replacement per maximal run |
| `PostForm.CollapseWords` | src/components/blog/PostForm.tsx:75-76 | Non-empty words free of the class, joined by one class member, come out joined by the replacement |
| `PostForm.DashSpaces` | src/components/blog/PostForm.tsx:75 | No whitespace survives. What is left is dashes and the input's other characters. Only the empty string comes out empty, and a string without whitespace is left as it is |
| `PostForm.SquashDashes` | src/components/blog/PostForm.tsx:76 | No two dashes are left side by side, and no new character appears. Only the empty string comes out empty, and a string without a double dash is left as it is |
| `PostForm.TrimStart` | src/components/blog/PostForm.tsx:77 | The result is a suffix of the input that does not start with whitespace, and only whitespace was dropped |
| `PostForm.TrimEnd` | src/components/blog/PostForm.tsx:77 | The result is a prefix of the input that does not end with whitespace, and only whitespace was dropped |
| `PostForm.TrimNoSpace` | src/components/blog/PostForm.tsx:77 | Trimming a string without whitespace leaves it unchanged |
| `PostForm.CollapseNoRepeat` | src/components/blog/PostForm.tsx:76 | When the collapsed class contains the replacement, the replacement never appears twice in a row |
| `PostForm.CollapseFixed` | src/components/blog/PostForm.tsx:75-76 | A string whose runs are already single replacements is left as it is |
| `PostForm.SquashedChars` | src/components/blog/PostForm.tsx:70-76 | Before trimming, the slug holds only slug characters and no double dash |
| `PostForm.Slugify` | src/components/blog/PostForm.tsx:70-77 | A generated slug is no longer than the title, holds only lower-case ASCII letters, digits and dashes, never two dashes in a row, and passes the slug pattern exactly when it is non-empty |
| `PostForm.NoDoubleDashIff` | src/components/blog/PostForm.tsx:76 | "No dash follows a dash" is the same as "does not contain `--`" |
| `PostForm.SlugOfSlug` | src/components/blog/PostForm.tsx:70-77 | A string of slug characters without a double dash is its own slug |
| `PostForm.SlugifyIdempotent` | src/components/blog/PostForm.tsx:70-77 | Deriving a slug from a derived slug changes nothing |
| `PostForm.SlugOfWords` | src/components/blog/PostForm.tsx:70-77 | A title of lower-case words of letters and digits, separated by single spaces, becomes the same words joined by dashes |
| `PostForm.SlugIgnoresCase` | src/components/blog/PostForm.tsx:71 | Upper-casing or lower-casing the title first does not change its slug |
| `PostForm.SlugOfNothingKept` | src/components/blog/PostForm.tsx:74 | A title none of whose characters survives the character filter yields the empty slug |
| `PostForm.SlugOfPunctuation` | src/components/blog/PostForm.tsx:70-77 | A title made only of exclamation marks yields the empty slug, which the slug pattern refuses |
| `PostForm.LengthError` | src/components/blog/PostForm.tsx:13-14 | A field is accepted exactly when its length is between 1 and the maximum. Empty reports "required" and too long reports "too long" |
| `PostForm.RequiredError` | src/components/blog/PostForm.tsx:15 | The content is accepted exactly when it is non-empty |
| `PostForm.SlugError` | src/components/blog/PostForm.tsx:16 | A slug is accepted exactly when it is non-empty and made of slug characters. An empty slug reports "required" rather than the pattern |
| `PostForm.CoverError` | src/components/blog/PostForm.tsx:17-19 | A cover is accepted exactly when it is absent, empty, or a URL |
| `PostForm.Validate` | src/components/blog/PostForm.tsx:12-20 | Each field has no message exactly when its rule holds: title 1 to 200 characters, excerpt 1 to 300, content non-empty, slug matching the pattern, cover absent, empty or a URL. No field has a message exactly when the form is acceptable |
| `PostForm.GeneratedSlugAccepted` | src/components/blog/PostForm.tsx:12-20 | With the slug generated from the title, a non-empty slug never draws a slug message, and the form is acceptable exactly when that slug is non-empty and every other field keeps its rule |
| `PostForm.BadSlugRejected` | src/components/blog/PostForm.tsx:16 | A slug with any character outside `[a-z0-9-]` draws the pattern message, and the submission is refused before `onSubmit` |
| `PostForm.Defaults` | src/components/blog/PostForm.tsx:56-62 | Editing starts from the post's own title, excerpt, content and slug, with a missing cover as the empty string. Creating starts empty |
| `PostForm.AutoSlug` | src/components/blog/PostForm.tsx:68-80 | The slug field follows the title only for a new post with a non-empty title. Editing a post, or clearing the title, keeps the slug as it was |
| `PostForm.ToFields` | src/components/blog/PostForm.tsx:193-203 | The fields handed on are the form's title, excerpt, content, slug and cover, with `published` set by the button pressed |
| `PostForm.Submit` | src/components/blog/PostForm.tsx:82-90 | A submission is refused, with the schema's messages, exactly when some rule fails. It is sent exactly when the form is acceptable and `onSubmit` succeeds. A failed `onSubmit` raises the publish alert. Whatever reaches `onSubmit` is the whole form, every field as entered, with the button's `published` flag |
| `BlogApp.StartCreate` | src/App.tsx:49-52 | Creating opens the editor with nothing selected |
| `BlogApp.StartEdit` | src/App.tsx:54-57 | Editing opens the editor with the post selected |
| `BlogApp.OpenPost` | src/App.tsx:59-62 | Opening a post shows its detail with it selected |
| `BlogApp.ViewOf` | src/App.tsx:98-121 | Every navigation target is one of the five public views |
| `BlogApp.Navigate` | src/App.tsx:93-121 | Every navigation handler shows its view and forgets the selection |
| `BlogApp.GoLogin` | src/App.tsx:157 | The login button changes only the view, keeping the selection |
| `BlogApp.LoginSucceeded` | src/App.tsx:183-185 | A successful login returns home, keeping the selection |
| `BlogApp.RequestCreate` | src/App.tsx:176 | A page's create button opens the editor with a user and the login view without one |
| `BlogApp.DeletePost` | src/App.tsx:64-75 | A declined confirmation changes nothing. A failed delete raises the delete alert and leaves the list alone. A successful one removes the post. The view changes only when the deleted post was the one on display, and the selection never changes |
| `BlogApp.SubmitCall` | src/App.tsx:82-86 | A submission updates the selected post when there is one and creates a post otherwise, with the form's fields |
| `BlogApp.PostSubmit` | src/App.tsx:77-91 | A submission goes to the store's update or create. A success returns home. A failure leaves the shell and the store as they were, so the form can alert |
| `BlogApp.ScreenFor` | src/App.tsx:138-152 | The spinner shows exactly while the session resolves. The login screen replaces the page exactly for the editor views without a user. Otherwise the current view shows |
| `BlogApp.IsOwner` | src/App.tsx:230 | A user owns a post exactly when signed in as its author |
| `BlogApp.FormNeedsUser` | src/App.tsx:187-193 | The auth gate already ensures a user whenever the create or edit page renders, so the form shows exactly when that page renders. Once the session has resolved and a user is present, it shows exactly in the create and edit views |
| `BlogApp.NavigateThenSubmitCreates` | src/App.tsx:98-121 | After any navigation, submitting the editor creates a new post rather than updating one |
| `BlogApp.EditThenSubmitUpdates` | src/App.tsx:82-83 | After choosing to edit a post, submitting updates that post |
| `BlogApp.DeclinedDeleteIsNoop` | src/App.tsx:65 | A declined confirmation changes nothing, whatever the server would have said |
| `BlogApp.DeleteLeavesDetail` | src/App.tsx:68-70 | Deleting the post on display returns home, while deleting from anywhere else stays put |
| `BlogApp.SubmitStores` | src/App.tsx:77-91 | A successful submission lands home. Editing replaces the row in place; creating puts it in front |
| `PostCard.CeilDiv` | src/components/ui/PostCard.tsx:43 | The result is the least whole number of minutes that covers the words |
| `PostCard.WordCount` | src/components/ui/PostCard.tsx:42 | Splitting on spaces gives one more word than there are spaces |
| `PostCard.ReadingTime` | src/components/ui/PostCard.tsx:40-44 | The reading time is at least one minute. It is the least number of 200-word minutes that covers the word count |
| `PostCard.CeilDivMonotone` | src/components/ui/PostCard.tsx:43 | More words never mean fewer minutes |
| `PostCard.ReadingTimeMonotone` | src/components/ui/PostCard.tsx:40-44 | Appending text never shortens the reading time |
| `PostCard.OneWordOneMinute` | src/components/ui/PostCard.tsx:40-44 | Text without spaces, the empty text included, reads in one minute |
| `PostCard.HexValue` | src/components/ui/PostCard.tsx:57 | A character has a value exactly when it is a hex digit of either case, and the value is below 16 |
| `PostCard.HexRoundTrip` | src/components/ui/PostCard.tsx:57 | Reading back a written hex digit gives its value |
| `PostCard.GradientIndex` | src/components/ui/PostCard.tsx:57 | A gradient is chosen exactly when the id ends in a hex digit. It is that digit's value modulo 8, always a valid index into the eight gradients |
| `PostCard.GradientOfHexEnding` | src/components/ui/PostCard.tsx:57 | An id ending in the hex digit of n gets gradient n mod 8 |
| `PostCard.Badge` | src/components/ui/PostCard.tsx:107 | The badge is never empty. It is the upper-cased username when there is one, else "AUTOR" |
| `PostCard.AuthorName` | src/components/ui/PostCard.tsx:155 | The author shown is never empty. It is the full name when there is one, else "Usuario" |
| `PostCard.BadgeIsDefaultIff` | src/components/ui/PostCard.tsx:107 | The badge reads "AUTOR" exactly when the username is missing, empty, or itself upper-cases to it |
| `PostCard.AuthorIsDefaultIff` | src/components/ui/PostCard.tsx:155 | The author reads "Usuario" exactly when the full name is missing, empty, or itself "Usuario" |
| `HomePage.DisplayedPosts` | src/components/home/HomePage.tsx:35 | All posts are shown when expanded; otherwise only the first eight, or all of them when there are fewer |
| `HomePage.ShowsToggle` | src/components/home/HomePage.tsx:104 | The button is absent exactly when the featured slice already shows every post; when present, the slice holds eight of more than eight posts |
| `HomePage.Toggle` | src/components/home/HomePage.tsx:107 | Each click flips between the featured slice and all posts |
| `HomePage.WriterCount` | src/components/home/HomePage.tsx:79 | The writers never outnumber the posts, and there is one exactly when there is a post |
| `HomePage.ReadingMinutes` | src/components/home/HomePage.tsx:88 | The minutes figure is at least the number of posts, since every post reads in at least a minute |
| `HomePage.FewPostsAllShown` | src/components/home/HomePage.tsx:35-104 | With eight posts or fewer the toggle is absent and every post is shown, whatever state the toggle was left in |
| `HomePage.DisplayedIsPrefix` | src/components/home/HomePage.tsx:35 | The posts shown are a prefix of the list, at most eight while collapsed |
| `HomePage.AuthorIdsCons` | src/components/home/HomePage.tsx:79 | The writers of a list are the first post's author together with the writers of the rest |
| `HomePage.WritersAtMostPosts` | src/components/home/HomePage.tsx:79 | There are never more active writers than posts |
| `HomePage.WritersExistIff` | src/components/home/HomePage.tsx:79 | There is at least one writer exactly when there is at least one post |
| `HomePage.WriterCountGrows` | src/components/home/HomePage.tsx:79 | A further post by a known writer leaves the count as it was; one by a newcomer raises it by exactly one |
| `HomePage.ReadingMinutesAppend` | src/components/home/HomePage.tsx:88 | The minutes of two lists together are the sum of each list's minutes |
| `HomePage.ReadingMinutesSingle` | src/components/home/HomePage.tsx:88 | One post contributes exactly the card's reading time for its content. With the sum over joined lists, the figure is the total of the posts' reading times |
| `BentoGrid.KindAt` | src/components/home/BentoGrid.tsx:79-80 | Exactly one size applies at each position: large at 0, medium at 1 and 2, standard from 3 on |
| `BentoGrid.TileFor` | src/components/home/BentoGrid.tsx:78-151 | A tile shows its post with that post's badge, author and reading time. It is marked as a draft exactly when the post is unpublished, and shows the excerpt only in the first position |
| `BentoGrid.TilesFrom` | src/components/home/BentoGrid.tsx:78 | There is one tile per post, in the posts' order, each built for its position |
| `BentoGrid.Render` | src/components/home/BentoGrid.tsx:44-186 | Loading shows eight placeholders. With no posts the grid shows the empty state. With posts it shows tiles followed by the invitation card |
| `BentoGrid.TilesFollowPosts` | src/components/home/BentoGrid.tsx:78-117 | The grid has one tile per post, in order, each a draft exactly when its post is unpublished |
| `BentoGrid.TileKinds` | src/components/home/BentoGrid.tsx:79-89 | Exactly the first tile is large, exactly the second and third are medium, and the rest are standard |
| `BentoGrid.PlaceholdersMatchTiles` | src/components/home/BentoGrid.tsx:52-55 | Each placeholder takes the span of the tile it stands for except the third, which spans only on large screens |
| `CookieConsent.UpdatePreference` | src/components/ui/CookieConsent.tsx:83-89 | The essential category cannot be changed. Any other category takes the value clicked, and every other category stays as it was |
| `CookieConsent.EssentialPinned` | src/components/ui/CookieConsent.tsx:31-89 | No run of clicks changes the essential flag, so from the starting preferences it stays on |
| `CookieConsent.Save` | src/components/ui/CookieConsent.tsx:57-58 | Answering stores the preferences and the time, leaves every other key alone, and adds no other key |
| `CookieConsent.GetConsent` | src/components/ui/CookieConsent.tsx:297-300 | The helper returns preferences exactly when a preference record is stored under the consent key, and returns that record |
| `CookieConsent.HasConsent` | src/components/ui/CookieConsent.tsx:302-304 | An answer that can be read back counts as consent, and consent is stored exactly when the banner stays hidden |
| `CookieConsent.ResetConsent` | src/components/ui/CookieConsent.tsx:306-309 | Resetting removes the consent and date keys, keeps every other key, and adds none |
| `CookieConsent.Mount` | src/components/ui/CookieConsent.tsx:38-48 | The banner shows exactly when no answer is stored, starting from essential-only preferences with details hidden |
| `CookieConsent.Check` | src/components/ui/CookieConsent.tsx:83-89 | A checkbox changes only the preferences, as the preference update does |
| `CookieConsent.OpenDetails` | src/components/ui/CookieConsent.tsx:131 | "Configurar" opens the details view and changes nothing else |
| `CookieConsent.CloseDetails` | src/components/ui/CookieConsent.tsx:155 | "Cerrar" returns to the summary view and changes nothing else |
| `CookieConsent.AcceptAll` | src/components/ui/CookieConsent.tsx:50-61 | Accepting all hides the banner, stores every category on, and reports it |
| `CookieConsent.AcceptSelected` | src/components/ui/CookieConsent.tsx:63-68 | Accepting the selection hides the banner and stores and reports the preferences as they stand |
| `CookieConsent.RejectAll` | src/components/ui/CookieConsent.tsx:70-81 | Rejecting hides the banner, stores essential only, and reports it |
| `CookieConsent.HookMount` | src/components/ui/CookieConsent.tsx:316-322 | On mount the hook has consent exactly when stored preferences can be read, and adopts them |
| `CookieConsent.UpdateConsent` | src/components/ui/CookieConsent.tsx:324-329 | Updating makes the hook hold the new preferences and stores them with the time |
| `CookieConsent.HookReset` | src/components/ui/CookieConsent.tsx:331-335 | Resetting clears the hook and removes the stored answer |
| `CookieConsent.SaveThenGet` | src/components/ui/CookieConsent.tsx:297-304 | What is saved is read back. The banner stays hidden on the next visit, and the hook adopts the saved answer |
| `CookieConsent.ResetThenGet` | src/components/ui/CookieConsent.tsx:306-309 | After a reset nothing is read back, and the banner shows again |
| `CookieConsent.AnswersStore` | src/components/ui/CookieConsent.tsx:50-81 | Each answer stores what it promises: all, essential only, or the checkboxes as clicked, essential always on |
| `CookieConsent.HasIffGet` | src/components/ui/CookieConsent.tsx:297-304 | The presence check agrees with a readable answer for every storage the banner and hook produce |
| `CookieConsent.ForeignRecordUnderConsentKey` | src/components/ui/CookieConsent.tsx:297-304 | A record other than preferences under the consent key counts as consent for the presence check and hides the banner, but reads back as no answer and the hook mounts empty |
| `CookieConsent.DetailsRoundTrip` | src/components/ui/CookieConsent.tsx:131-155 | Opening the details, ticking a box and closing them leaves a fresh banner in its summary view with the tick kept |
| `ProfileUtils.UsernameFor` | src/utils/profileUtils.ts:23 | The username is the part of the address before its first `@`: a prefix free of `@`, followed by an `@` when it is shorter than the address, and the whole address exactly when there is no `@` |
| `ProfileUtils.FullNameFor` | src/utils/profileUtils.ts:27 | The full name is never empty. It is the given name when there is one, else the e-mail, else "Usuario" |
| `ProfileUtils.NewProfile` | src/utils/profileUtils.ts:24-28 | A new profile row carries the user's id with the derived username and full name |
| `ProfileUtils.EnsureUserProfile` | src/utils/profileUtils.ts:3-49 | A lookup error other than "no row found" is thrown with no insert, and an existing profile is returned with no insert. Otherwise exactly the derived row is inserted and the insert's error or data is passed on |
| `ProfileUtils.NoInsertIgnoresStore` | src/utils/profileUtils.ts:12-20 | When no insert is made, the insert's reply plays no part in the outcome |
| `ProfileUtils.ExistingProfileReturned` | src/utils/profileUtils.ts:17-20 | A profile found comes back untouched, and nothing is inserted, whether the lookup reported no error or only the not-found code |
| `ProfileUtils.UsernameOfAddress` | src/utils/profileUtils.ts:23-27 | A user signing up as `name@host` gets the username `name`, and the address as full name when none is given |
| `ProfileUtils.SplitHeadStopsAtSep` | src/utils/profileUtils.ts:23 | The first piece of a split is the whole string or ends right before a separator |

## Left out

- Supabase itself: queries, row-level security, the filters and ordering the
  server applies, and the session. Each call's reply is a parameter, so the
  model says what the client does with any reply, not which replies occur.
- Concurrency: the store's operations are applied one at a time. Two
  overlapping calls whose replies arrive out of order are not modelled.
- Timers:
  - the 300 ms delay of the reveal hook, as a split into `BeginLoad` and
    `EndLoad`;
  - the 1000 ms delay before the cookie banner appears, as the mounted state
    after it.
  - A load completing after its items changed (the callback's stale closure)
    is not modelled.
- The IntersectionObserver and its set-up effects in `useInfiniteScroll.ts`:
  only the condition under which it calls `loadMore` is modelled.
- `updateExistingProfile` (profileUtils.ts): a single remote update with no
  logic of its own.
- Rendering:
  - markup, CSS classes other than the mosaic's spans, icons and
    `console.log` calls;
  - the static pages (about, terms, privacy), the header, footer and
    layout;
  - the markdown editor and preview, the skeletons, the authentication modal
    and context, and the debug panel.
- `PostForm.Slugify`: case mapping is ASCII only, and the Unicode
  normalisation that strips accents is not modelled. An accented letter is
  dropped with the other characters outside `[a-z0-9\s-]`, where the source
  would keep its base letter.
- `PostForm.LengthError`: lengths count characters, not UTF-16 code units.
- `PostForm.CoverError`: zod's URL check is the parameter `isUrl`.
- `PostForm.Defaults`: without a post the form's values are undefined in the
  source and are modelled as empty strings. For the text inputs the model's
  messages match. The content editor is a `Controller` (PostForm.tsx:162):
  left untouched, its value stays undefined and zod reports its own type
  error, where the model reports "El contenido es requerido". Either way
  the form is refused.
- `PostsPage.FilteredPosts`: lower-casing is ASCII only, so "ángel" does not
  match a title holding "Ángel", where `toLowerCase` would make them match.
- `PostsPage.Matches`: the same ASCII-only lower-casing as
  `PostsPage.FilteredPosts`.
- `PostCard.Badge`: upper-casing is ASCII only. `toUpperCase` also maps
  accented letters and expands 'ß' to "SS"; the model leaves them as they are.
- `PostsPage.ComparatorConsistent`: `localeCompare` is an abstract collation
  parameter. Creation times are integers (milliseconds) rather than date
  strings parsed by `new Date`.
- `InfiniteScroll.ProgressBounds`: progress is an exact rational, not an IEEE
  double.
- `PostCard.ReadingTime`: `Math.ceil` of the float quotient is modelled as
  exact integer ceiling division. The two agree for any realistic word count.
- `CookieConsent.GetConsent`: stored values are typed records, not JSON text.
  A record other than a preference record under the consent key (such as
  the date string) reads as "no answer", where the source's `JSON.parse`
  throws a `SyntaxError` (CookieConsent.tsx:299) and the hook's mount effect
  (CookieConsent.tsx:316-321) throws with it. An empty string under the key
  is not represented.
- `CookieConsent.ForeignRecordUnderConsentKey`: states the "no answer"
  reading above, not the exception the source raises.
- `BlogApp.ScreenFor`: the page's own guards are not modelled. The login
  view with a user, and the detail view with no selected post, render an
  empty container.
- `BlogApp.DeletePost`: the confirmation dialog is its Boolean answer.
- The error banner the shell shows above every view (App.tsx:166-170) only
  displays the store's `error`.
