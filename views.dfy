/** The request handlers of the posts app. The listings and the post page only
    read the store and are functions; the handlers that save or delete rows
    change the store in place and are methods. Every handler behind a login
    wall answers a guest with a redirect to the login page that remembers the
    requested route, before it looks anything up. */
module Views {
  import opened Models
  import opened Seqs
  import opened Paging
  import opened Schema

  /** A logged-in requester is a registered user. */
  ghost predicate Registered(db: Store, requester: Requester)
    reads db
  {
    requester.Member? ==> requester.username in db.users
  }

  /** The follow table has no edge from a user to that same user. */
  ghost predicate NoSelfFollow(follows: set<Follow>)
  {
    forall f :: f in follows ==> f.user != f.author
  }

  /** The feed query: the posts whose author the user follows, in table order. */
  function Feed(posts: seq<Post>, follows: set<Follow>, user: Username): (r: seq<Post>)
    ensures forall p :: p in r <==> p in posts && Follow(user, p.author) in follows
  {
    Filter(posts, (p: Post) => Follow(user, p.author) in follows)
  }

  /** The comments on one post, in table order. */
  function CommentsOn(comments: seq<Comment>, id: PostId): (r: seq<Comment>)
    ensures forall c :: c in r <==> c in comments && c.post == id
  {
    Filter(comments, (c: Comment) => c.post == id)
  }

  /** How many authors the user follows: the user's outgoing follow edges. */
  function FollowingCount(follows: set<Follow>, user: Username): nat
  {
    |set f | f in follows && f.user == user|
  }

  /** The `following` flag of the profile and post pages. */
  function IsFollowing(follows: set<Follow>, requester: Requester, author: Username): bool
  {
    requester.Member? && Follow(requester.username, author) in follows
  }

  // ---- Read-only handlers

  /** index: one page of all posts, in table order. */
  function Index(db: Store, page: PageNumber): (o: Outcome)
    reads db
    ensures o.Render? && o.context.IndexContext?
    ensures o.context.page == Page(db.posts, page)
    ensures |o.context.page| <= PostsPerPage
    ensures |db.posts| >= page * PostsPerPage ==> |o.context.page| == PostsPerPage
    ensures forall k :: 0 <= k < |o.context.page| ==>
      (page - 1) * PostsPerPage + k < |db.posts| &&
      o.context.page[k] == db.posts[(page - 1) * PostsPerPage + k]
  {
    Render(IndexContext(Page(db.posts, page)))
  }

  /** group_posts: 404 for an unknown slug, else one page of that group's posts. */
  function GroupPosts(db: Store, slug: Slug, page: PageNumber): (o: Outcome)
    reads db
    ensures o.NotFound? <==> slug !in db.groups
    ensures slug in db.groups ==>
      o.Render? && o.context.GroupContext? && o.context.group == db.groups[slug] &&
      o.context.page == Page(InGroup(db.posts, slug), page)
    ensures o.Render? ==> forall p :: p in o.context.page ==> p in db.posts && p.group == Some(slug)
  {
    if slug !in db.groups then NotFound
    else Render(GroupContext(db.groups[slug], Page(InGroup(db.posts, slug), page)))
  }

  /** profile: 404 for an unknown user, else one page of that author's posts,
      and whether the requester follows the author. */
  function Profile(db: Store, requester: Requester, username: Username, page: PageNumber): (o: Outcome)
    reads db
    ensures o.NotFound? <==> username !in db.users
    ensures username in db.users ==>
      o.Render? && o.context.ProfileContext? && o.context.author == username &&
      o.context.page == Page(ByAuthor(db.posts, username), page) &&
      (o.context.following <==> requester.Member? && Follow(requester.username, username) in db.follows)
    ensures o.Render? ==> forall p :: p in o.context.page ==> p in db.posts && p.author == username
  {
    if username !in db.users then NotFound
    else Render(ProfileContext(username, Page(ByAuthor(db.posts, username), page),
                               IsFollowing(db.follows, requester, username)))
  }

  /** post_view: 404 unless a post has that key and that author; else the post,
      its comments and whether the requester follows its author. */
  function PostView(db: Store, requester: Requester, username: Username, id: PostId): (o: Outcome)
    reads db
    ensures o.NotFound? || o.Render?
    ensures o.NotFound? <==> FindPost(db.posts, id, username).None? || username !in db.users
    ensures o.Render? ==>
      o.context.PostContext? && o.context.post in db.posts &&
      o.context.post.id == id && o.context.post.author == username &&
      o.context.author == username &&
      o.context.comments == CommentsOn(db.comments, id) &&
      (o.context.following <==> requester.Member? && Follow(requester.username, username) in db.follows)
  {
    match FindPost(db.posts, id, username)
    case None => NotFound
    case Some(post) =>
      if username !in db.users then NotFound
      else Render(PostContext(post, username, CommentsOn(db.comments, id),
                              IsFollowing(db.follows, requester, username)))
  }

  /** follow_index: login required; one page of the posts of the authors the
      requester follows. */
  function FollowIndex(db: Store, requester: Requester, page: PageNumber): (o: Outcome)
    reads db
    ensures requester.Guest? ==> o == LoginRedirect(FollowIndexUrl)
    ensures requester.Member? ==>
      o.Render? && o.context.FollowContext? &&
      o.context.page == Page(Feed(db.posts, db.follows, requester.username), page)
    ensures o.Render? ==> forall p :: p in o.context.page ==>
      p in db.posts && Follow(requester.username, p.author) in db.follows
  {
    if requester.Guest? then LoginRedirect(FollowIndexUrl)
    else Render(FollowContext(Page(Feed(db.posts, db.follows, requester.username), page)))
  }

  // ---- Handlers that change the store

  /** new_post: login required. An invalid or absent form is rendered again
      and nothing is saved; a valid one adds exactly one post, owned by the
      requester, and redirects to the index. */
  method NewPost(db: Store, requester: Requester, form: Option<PostFields>, now: Time) returns (o: Outcome)
    requires db.Valid() && Registered(db, requester)
    modifies db`posts, db`nextId
    ensures db.Valid()
    ensures requester.Guest? ==> o == LoginRedirect(NewPostUrl)
    ensures requester.Member? && !PostFormValid(form, db.groups.Keys) ==>
      o == Render(PostFormContext(None))
    ensures requester.Member? && PostFormValid(form, db.groups.Keys) ==>
      o == Redirect(IndexUrl) &&
      db.posts == old(db.posts) + [Post(old(db.nextId), requester.username, form.value.group,
                                        form.value.text, now, form.value.image)] &&
      !HasPost(old(db.posts), old(db.nextId))
    ensures o != Redirect(IndexUrl) ==> unchanged(db)
  {
    if requester.Guest? {
      return LoginRedirect(NewPostUrl);
    }
    if !PostFormValid(form, db.groups.Keys) {
      return Render(PostFormContext(None));
    }
    var _ := db.Create(requester.username, form.value, now);
    o := Redirect(IndexUrl);
  }

  /** post_edit: login required; 404 unless the post with that key has that
      author. Anyone but the author is sent to the post page and nothing
      changes. The author gets the form again when it is invalid or absent,
      and otherwise the post is saved with the form's fields. */
  method PostEdit(db: Store, requester: Requester, username: Username, id: PostId,
                  form: Option<PostFields>) returns (o: Outcome)
    requires db.Valid() && Registered(db, requester)
    modifies db`posts
    ensures db.Valid()
    ensures requester.Guest? ==> o == LoginRedirect(PostEditUrl(username, id))
    ensures requester.Member? && FindPost(old(db.posts), id, username).None? ==> o == NotFound
    ensures requester.Member? && FindPost(old(db.posts), id, username).Some? ==>
      var post := FindPost(old(db.posts), id, username).value;
      if requester.username != username then
        o == Redirect(PostUrl(username, id))
      else if !PostFormValid(form, db.groups.Keys) then
        o == Render(PostFormContext(Some(post)))
      else
        o == Redirect(PostUrl(username, id)) &&
        db.posts == ReplacePost(old(db.posts), Edited(post, form.value))
    ensures db.posts != old(db.posts) ==>
      requester.Member? && requester.username == username && PostFormValid(form, db.groups.Keys) &&
      FindPost(old(db.posts), id, username).Some?
  {
    if requester.Guest? {
      return LoginRedirect(PostEditUrl(username, id));
    }
    var found := FindPost(db.posts, id, username);
    if found.None? {
      return NotFound;
    }
    var post := found.value;
    if requester.username != username {
      return Redirect(PostUrl(username, id));
    }
    if !PostFormValid(form, db.groups.Keys) {
      return Render(PostFormContext(Some(post)));
    }
    var edited := Edited(post, form.value);
    assert post in db.posts;
    db.Save(edited);
    o := Redirect(PostUrl(username, id));
  }

  /** add_comment: login required; 404 unless the post with that key has that
      author. A valid form adds exactly one comment, on that post and by the
      requester, and redirects to the post page; otherwise the comment form is
      rendered with the post's comments and nothing is saved. */
  method AddComment(db: Store, requester: Requester, id: PostId, username: Username,
                    form: Option<string>, now: Time) returns (o: Outcome)
    requires db.Valid() && Registered(db, requester)
    modifies db`comments
    ensures db.Valid()
    ensures requester.Guest? ==> o == LoginRedirect(AddCommentUrl(username, id))
    ensures requester.Member? && FindPost(db.posts, id, username).None? ==> o == NotFound
    ensures requester.Member? && FindPost(db.posts, id, username).Some? ==>
      var post := FindPost(db.posts, id, username).value;
      if form.Some? && form.value != [] then
        o == Redirect(PostUrl(post.author, post.id)) &&
        db.comments == old(db.comments) + [Comment(post.id, requester.username, form.value, now)]
      else
        o == Render(CommentsContext(post, CommentsOn(db.comments, id)))
    ensures !o.Redirect? ==> db.comments == old(db.comments)
  {
    if requester.Guest? {
      return LoginRedirect(AddCommentUrl(username, id));
    }
    var found := FindPost(db.posts, id, username);
    if found.None? {
      return NotFound;
    }
    var post := found.value;
    if form.Some? && form.value != [] {
      var comment := Comment(post.id, requester.username, form.value, now);
      assert HasPost(db.posts, comment.post);
      db.comments := db.comments + [comment];
      return Redirect(PostUrl(post.author, post.id));
    }
    o := Render(CommentsContext(post, CommentsOn(db.comments, id)));
  }

  /** profile_follow: login required; 404 for an unknown user. Following
      oneself changes nothing and redirects to the index; following anyone
      else adds the edge (requester, author) if it is not already there and
      redirects to the author's profile. */
  method ProfileFollow(db: Store, requester: Requester, username: Username) returns (o: Outcome)
    requires db.Valid() && Registered(db, requester)
    modifies db`follows
    ensures db.Valid()
    ensures requester.Guest? ==> o == LoginRedirect(ProfileFollowUrl(username))
    ensures requester.Member? && username !in db.users ==> o == NotFound
    ensures requester.Member? && username in db.users && username == requester.username ==>
      o == Redirect(IndexUrl)
    ensures requester.Member? && username in db.users && username != requester.username ==>
      o == Redirect(ProfileUrl(username)) &&
      db.follows == old(db.follows) + {Follow(requester.username, username)}
    ensures !(o == Redirect(ProfileUrl(username))) ==> db.follows == old(db.follows)
    ensures NoSelfFollow(old(db.follows)) ==> NoSelfFollow(db.follows)
  {
    if requester.Guest? {
      return LoginRedirect(ProfileFollowUrl(username));
    }
    if username !in db.users {
      return NotFound;
    }
    if username != requester.username {
      db.follows := db.follows + {Follow(requester.username, username)};
    } else {
      return Redirect(IndexUrl);
    }
    o := Redirect(ProfileUrl(username));
  }

  /** profile_unfollow: login required; 404 for an unknown user. Unfollowing
      oneself changes nothing and redirects to the index; unfollowing anyone
      else removes the edge (requester, author), and only it, and redirects
      to the author's profile. */
  method ProfileUnfollow(db: Store, requester: Requester, username: Username) returns (o: Outcome)
    requires db.Valid() && Registered(db, requester)
    modifies db`follows
    ensures db.Valid()
    ensures requester.Guest? ==> o == LoginRedirect(ProfileUnfollowUrl(username))
    ensures requester.Member? && username !in db.users ==> o == NotFound
    ensures requester.Member? && username in db.users && username == requester.username ==>
      o == Redirect(IndexUrl)
    ensures requester.Member? && username in db.users && username != requester.username ==>
      o == Redirect(ProfileUrl(username)) &&
      db.follows == old(db.follows) - {Follow(requester.username, username)}
    ensures !(o == Redirect(ProfileUrl(username))) ==> db.follows == old(db.follows)
  {
    if requester.Guest? {
      return LoginRedirect(ProfileUnfollowUrl(username));
    }
    if username !in db.users {
      return NotFound;
    }
    if username != requester.username {
      db.follows := db.follows - {Follow(requester.username, username)};
      return Redirect(ProfileUrl(username));
    } else {
      return Redirect(IndexUrl);
    }
  }

  // ---- Properties of the follow table and the listings

  /** Following adds one to the requester's following count, unless the edge
      was already there; then the count, like the table, stays. */
  lemma FollowCount(follows: set<Follow>, user: Username, author: Username)
    ensures FollowingCount(follows + {Follow(user, author)}, user) ==
      FollowingCount(follows, user) + if Follow(user, author) in follows then 0 else 1
  {
    var e := Follow(user, author);
    var before := set f | f in follows && f.user == user;
    var after := set f | f in follows + {e} && f.user == user;
    assert after == before + {e};
    if e in follows {
      assert e in before && after == before;
    } else {
      assert e !in before;
    }
  }

  /** Unfollowing takes one from the count when the edge was there. */
  lemma UnfollowCount(follows: set<Follow>, user: Username, author: Username)
    ensures FollowingCount(follows - {Follow(user, author)}, user) ==
      FollowingCount(follows, user) - if Follow(user, author) in follows then 1 else 0
  {
    var e := Follow(user, author);
    var before := set f | f in follows && f.user == user;
    var after := set f | f in follows - {e} && f.user == user;
    assert after == before - {e};
    if e in follows {
      assert e in before;
    } else {
      assert after == before;
    }
  }

  /** Following an author not yet followed and then unfollowing them gives
      back the follow table, and the count, from before. */
  lemma FollowThenUnfollow(follows: set<Follow>, user: Username, author: Username)
    requires Follow(user, author) !in follows
    ensures (follows + {Follow(user, author)}) - {Follow(user, author)} == follows
    ensures FollowingCount((follows + {Follow(user, author)}) - {Follow(user, author)}, user) ==
      FollowingCount(follows, user)
  {
    FollowCount(follows, user, author);
    UnfollowCount(follows + {Follow(user, author)}, user, author);
  }

  /** After following an author, all of that author's posts are in the
      feed, and so is everything that was in it before. */
  lemma FeedAfterFollow(posts: seq<Post>, follows: set<Follow>, user: Username, author: Username)
    ensures forall p :: p in posts && p.author == author ==>
      p in Feed(posts, follows + {Follow(user, author)}, user)
    ensures forall p :: p in Feed(posts, follows, user) ==>
      p in Feed(posts, follows + {Follow(user, author)}, user)
  {
  }

  /** After unfollowing an author, none of that author's posts is in the feed. */
  lemma FeedAfterUnfollow(posts: seq<Post>, follows: set<Follow>, user: Username, author: Username)
    ensures forall p :: p in Feed(posts, follows - {Follow(user, author)}, user) ==> p.author != author
  {
  }

  /** A user who follows nobody has an empty feed. */
  lemma NoFollowsNoFeed(posts: seq<Post>, follows: set<Follow>, user: Username)
    requires forall f :: f in follows ==> f.user != user
    ensures Feed(posts, follows, user) == []
  {
    FilterNothing(posts, (p: Post) => Follow(user, p.author) in follows);
  }

  /** A user who follows nobody gets an empty feed page, whichever page. */
  lemma NoFollowsEmptyFeed(db: Store, user: Username, page: PageNumber)
    requires forall f :: f in db.follows ==> f.user != user
    ensures FollowIndex(db, Member(user), page) == Render(FollowContext([]))
  {
    NoFollowsNoFeed(db.posts, db.follows, user);
  }

  /** A new post comes last in the listing of its author and, when it has one,
      of its group; the earlier entries keep their order. */
  lemma NewPostListedLast(posts: seq<Post>, p: Post)
    ensures ByAuthor(posts + [p], p.author) == ByAuthor(posts, p.author) + [p]
    ensures p.group.Some? ==>
      InGroup(posts + [p], p.group.value) == InGroup(posts, p.group.value) + [p]
  {
    FilterAppend(posts, [p], (q: Post) => q.author == p.author);
    if p.group.Some? {
      FilterAppend(posts, [p], (q: Post) => q.group == Some(p.group.value));
    }
  }

  /** With the store consistent, the post page is a 404 exactly when no
      post has that key and that author, so a key paired with another
      user's name is not found. */
  lemma MismatchedPairIsNotFound(db: Store, requester: Requester, p: Post, username: Username)
    requires db.Valid() && p in db.posts
    ensures PostView(db, requester, username, p.id).NotFound? <==> p.author != username
  {
    LookupNeedsBothKeys(db.posts, p, username);
  }

  /** An edit leaves every other post alone and keeps the edited post's key,
      author and pub_date, so its place in every author listing stays. */
  lemma EditKeepsOthers(posts: seq<Post>, post: Post, f: PostFields)
    requires UniqueIds(posts) && post in posts
    ensures forall q :: q in posts && q.id != post.id ==> q in ReplacePost(posts, Edited(post, f))
    ensures Edited(post, f) in ReplacePost(posts, Edited(post, f))
    ensures forall q :: q in ReplacePost(posts, Edited(post, f)) ==> q.id == post.id || q in posts
  {
    var r := ReplacePost(posts, Edited(post, f));
    forall q | q in posts && q.id != post.id ensures q in r {
      var i :| 0 <= i < |posts| && posts[i] == q;
      assert r[i] == q;
    }
    var i :| 0 <= i < |posts| && posts[i] == post;
    assert r[i] == Edited(post, f);
    forall q | q in r ensures q.id == post.id || q in posts {
      var k :| 0 <= k < |r| && r[k] == q;
      assert posts[k] in posts;
    }
  }
}
