# Yatube posts: a verified model of the request handlers

Yatube is a small blog. Users write text posts. A post may be filed under a group and may carry an image. Users comment on posts and follow other authors, and the posts of the followed authors make up a personal feed. This project models the posts app's request handlers over an in-memory store, together with the row rules of the post table that the schema migration fixes. It proves what each handler decides.

- `Models` (models.dfy) defines the records. These are posts, groups, comments, follow edges, the submitted post form, the requester (guest or member), the named routes, the template contexts, and the handler outcome. An outcome is `Render`, `Redirect(target)`, `NotFound` or `LoginRedirect(next)`.
- `Seqs` (seqs.dfy) holds filtering and mapping of tables. The listings, the SET_NULL rewrite, the cascade and the saving of an edit are built from them. Inserts and follow edges change their tables directly.
- `Paging` (paging.dfy) holds pagination. Every listing is cut into pages of `PostsPerPage` = 10.
- `Schema` (schema.dfy) models the post-table rules and the store:
  - the author foreign key cascades on delete;
  - the group foreign key is nullable, and deleting its group sets it to null;
  - pub_date is set once, at insert;
  - text is required, and the group may be left blank.
  It also defines the post lookup by key and author name. The class `Store` is the database: users, groups, posts, comments, follows, and the post-key counter. `Store.Valid()` is its integrity invariant: unique post keys, foreign keys that point at rows that exist, and non-empty text.
- `Views` (views.dfy) holds the handlers. The read-only handlers (index, group listing, profile, post page, feed) are functions that read the store. The handlers that save or delete rows (new post, edit, comment, follow, unfollow) are methods. They change the store in place and keep `Valid()`.

Following yourself changes nothing and redirects to the index (yatube/posts/views.py:129-132).

## Model

| member | source | states |
|---|---|---|
| `Paging.Page` | yatube/posts/views.py:15-17 | page n of a listing holds the elements at positions 10(n-1) to 10n-1. The page is full when the listing reaches 10n, holds the remainder on the last page, and is empty past the end |
| `Paging.Pages` | yatube/posts/views.py:15-17 | a listing is cut into at least one page. Every page but the last holds exactly 10. The last page holds at most 10, and is non-empty unless the listing is empty |
| `Paging.PagesCoverListing` | yatube/posts/views.py:15-17 | the pages, concatenated in order, are exactly the listing |
| `Paging.PageIsNthPage` | yatube/posts/views.py:38-40 | the page a handler slices for page number n is the n-th page of the cut |
| `Paging.PageCount` | yatube/posts/views.py:119-121 | the number of pages is 1 for an empty listing, otherwise the length divided by 10, rounded up |
| `Paging.FifteenPosts` | yatube/posts/test/test_views.py:234-260 | 15 posts give a first page of 10, a second of 5, and two pages in all. The model's third page is empty, by its rule that a page past the end is empty; the app would clamp it to the last page |
| `Schema.ByAuthor` | yatube/posts/views.py:36 | a listing holds exactly the posts whose author is the given user |
| `Schema.InGroup` | yatube/posts/views.py:27 | a listing holds exactly the posts whose group is the given slug |
| `Schema.FindPost` | yatube/posts/views.py:48 | the lookup succeeds exactly when some post has both the key and the author name, and it returns such a post |
| `Schema.LookupNeedsBothKeys` | yatube/posts/views.py:73 | with unique keys, the lookup for a post's key returns that post when the author name matches. A different name gives not-found |
| `Schema.PostFormValid` | yatube/posts/migrations/0008_auto_20210704_1046.py:20-33 | a form is valid exactly when data was posted, the text is non-empty, and any chosen group exists. No data, or empty text, or an unknown group is invalid; non-empty text with no group is valid |
| `Schema.Edited` | yatube/posts/migrations/0008_auto_20210704_1046.py:25-28 | an edit keeps the key, the author and pub_date. It takes text and group from the form, and the image when a file is uploaded |
| `Schema.ReplacePost` | yatube/posts/views.py:79 | saving an edited post rewrites only the row with its key. All other rows and the row order stay |
| `Schema.WithoutGroup` | yatube/posts/migrations/0008_auto_20210704_1046.py:20-23 | deleting a group keeps every post. The group's posts get no group, nothing else about them changes, and other posts are untouched |
| `Schema.WithoutAuthor` | yatube/posts/migrations/0008_auto_20210704_1046.py:15-18 | deleting a user removes exactly that user's posts. The count drops by the number of those posts |
| `Schema.Store.Create` | yatube/posts/views.py:65-67 | an insert appends exactly one row. The row has a fresh key, the given author, the form's text, group and image, and pub_date equal to the insert time. The store stays valid |
| `Schema.Store.Save` | yatube/posts/views.py:78-79 | the table becomes the old one with the row of that key replaced. The store stays valid |
| `Schema.Store.DeleteGroup` | yatube/posts/migrations/0008_auto_20210704_1046.py:20-23 | the group is gone and the posts are the SET_NULL rewrite of the old ones. The store stays valid |
| `Schema.Store.DeleteUser` | yatube/posts/migrations/0008_auto_20210704_1046.py:15-18 | the user is gone and the posts are the cascade filter of the old ones. The user's comments, the comments on removed posts, and the user's follow edges go too. The store stays valid |
| `Views.Feed` | yatube/posts/views.py:118 | the feed holds exactly the posts whose author the user follows |
| `Views.CommentsOn` | yatube/posts/views.py:52 | the list holds exactly the comments whose post is the given key |
| `Views.Index` | yatube/posts/views.py:13-22 | the index always renders page n of all posts: at most 10 posts, entry k being the post at position 10(n-1)+k, a full page when enough posts exist, and the remainder on a short last page |
| `Views.GroupPosts` | yatube/posts/views.py:25-31 | not-found exactly for an unknown slug. Otherwise it renders the group and one page of its posts, all in that group |
| `Views.Profile` | yatube/posts/views.py:34-44 | not-found exactly for an unknown user. Otherwise it renders one page of that author's posts. `following` is true exactly when the requester is logged in and follows the author |
| `Views.PostView` | yatube/posts/views.py:47-57 | not-found unless a post has the key and the author name. Otherwise it renders that post with its comments, and `following` is true exactly when the requester is logged in and follows the author |
| `Views.FollowIndex` | yatube/posts/views.py:115-122 | a guest is sent to login with `next` set to the feed. A member sees one page of the feed, holding only posts by authors the member follows |
| `Views.NewPost` | yatube/posts/views.py:60-68 | a guest is sent to login. An invalid or absent form (such as empty text) renders the form and changes nothing. A valid form appends exactly one post owned by the requester, with the submitted text, group and image, then redirects to the index |
| `Views.PostEdit` | yatube/posts/views.py:71-82 | a guest is sent to login with `next` set to the edit route. A mismatched key and author is not-found and nothing changes. A non-owner is redirected to the post and nothing changes. The owner is re-rendered an invalid form, or the post is saved with the form's fields and the owner is redirected to the post |
| `Views.AddComment` | yatube/posts/views.py:98-112 | a guest is sent to login. A mismatched pair is not-found. A valid form appends exactly one comment on the looked-up post, by the requester, then redirects to the post. Otherwise the form renders with the post's comments and nothing is added |
| `Views.ProfileFollow` | yatube/posts/views.py:125-133 | a guest is sent to login, and an unknown user is not-found. Following yourself changes nothing and redirects to the index. Otherwise the edge (requester, author) is added and the requester is redirected to that author's profile. No self-edge is ever added |
| `Views.ProfileUnfollow` | yatube/posts/views.py:136-144 | a guest is sent to login, and an unknown user is not-found. Unfollowing yourself changes nothing and redirects to the index. Otherwise exactly the edge (requester, author) is removed, and the requester is redirected to the author's profile |
| `Views.FollowCount` | yatube/posts/views.py:130 | following raises the requester's following count by one, or by nothing when the edge already exists (get-or-create is idempotent) |
| `Views.UnfollowCount` | yatube/posts/views.py:140-141 | unfollowing lowers the count by one when the edge existed, and by nothing otherwise |
| `Views.FollowThenUnfollow` | yatube/posts/test/test_views.py:177-185 | following an author not yet followed and then unfollowing restores both the follow table and the count |
| `Views.FeedAfterFollow` | yatube/posts/test/test_views.py:187-192 | after following an author, all of that author's posts are in the feed, and the feed loses nothing |
| `Views.FeedAfterUnfollow` | yatube/posts/views.py:139-142 | after unfollowing an author, none of that author's posts is in the feed |
| `Views.NoFollowsNoFeed` | yatube/posts/test/test_views.py:193-194 | a user with no follow edges has an empty feed |
| `Views.NoFollowsEmptyFeed` | yatube/posts/test/test_views.py:193-194 | a member with no follow edges gets an empty feed page, whichever page is asked for |
| `Views.NewPostListedLast` | yatube/posts/views.py:27 | in the model's table order, a new post comes last in its author's listing and in its group's listing. Earlier entries keep their order |
| `Views.EditKeepsOthers` | yatube/posts/views.py:76-79 | after an edit, every other post is still there. The edited post is present, and no other row appears |
| `Views.MismatchedPairIsNotFound` | yatube/posts/views.py:47-49 | in a valid store, the post page for a post's key is not-found exactly when the author name given is not its author |

## Left out

- Response cache: the 20-second page cache on the index is time-based and lives in the framework's cache backend.
- Rendering: templates, the 404 and 500 pages, and URL routing. A 404 is only the `NotFound` outcome. A route is a `Route` value, not a path string.
- Paginator edge cases: a page number is a positive integer, and a page past the end is empty. The framework's clamping of invalid or out-of-range page numbers is not modelled.
- Authentication and sessions: the requester is a parameter (`Guest` or `Member`). A member is taken to be a registered user.
- Clock: "now" is a parameter of the handlers that insert rows.
- Images: an image is an opaque reference, and an upload is not checked for being a valid image. On an edit, a form with no upload keeps the stored image. Clearing the image is not modelled.
- Form cleaning: surrounding whitespace is not stripped from text. Text is valid when it is non-empty. The form module is not part of this model; its rules here come from the model fields (text required, group blank allowed, group must exist).
- Ordering: the app lists posts newest first (yatube/posts/test/test_views.py:164-171 reads a just-created post at the head of the page). The model-level ordering is in models.py, which is not part of this model, so the model's listings come in table (insertion) order. `Views.NewPostListedLast` and the positions in `Views.Index` hold for that order: a new post is last there, where the app shows it first.
- Delete rules for comments and follows: models.py is not part of this model. `Schema.Store.DeleteUser` removes the user's follow edges at both ends and the user's comments, and the comments on the removed posts. That is, those foreign keys are taken as cascading. Comments on a post surviving a deleted group are untouched.
- Users and groups are only created by the `Store` constructor. Registration and the admin site are not part of this model.
- `Views.PostEdit`: on an invalid form, the template context holds the post as stored. The framework's in-memory instance may already carry the fields that did validate.
