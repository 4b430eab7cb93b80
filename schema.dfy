/** The post table and the rules the schema fixes for its rows: the author
    foreign key cascades on delete, the group foreign key is nullable and is
    set to null when its group goes, pub_date is set once at insert, text is
    required while group may be left blank. The store holding all tables is
    a class whose operations change it in place. */
module Schema {
  import opened Models
  import opened Seqs

  /** No two posts share a primary key. */
  ghost predicate UniqueIds(posts: seq<Post>)
  {
    forall i, j :: 0 <= i < j < |posts| ==> posts[i].id != posts[j].id
  }

  /** Some post has primary key id. */
  predicate HasPost(posts: seq<Post>, id: PostId)
  {
    exists p :: p in posts && p.id == id
  }

  /** The posts of one author (the author's related posts), in table order. */
  function ByAuthor(posts: seq<Post>, author: Username): (r: seq<Post>)
    ensures forall p :: p in r <==> p in posts && p.author == author
  {
    Filter(posts, (p: Post) => p.author == author)
  }

  /** The posts of one group (the group's related posts), in table order. */
  function InGroup(posts: seq<Post>, slug: Slug): (r: seq<Post>)
    ensures forall p :: p in r <==> p in posts && p.group == Some(slug)
  {
    Filter(posts, (p: Post) => p.group == Some(slug))
  }

  /** The post lookup of the post, edit and comment pages, by key and
      author's username: a post is found only when both match. */
  function FindPost(posts: seq<Post>, id: PostId, username: Username): (r: Option<Post>)
    ensures r.Some? <==> exists p :: p in posts && p.id == id && p.author == username
    ensures r.Some? ==> r.value in posts && r.value.id == id && r.value.author == username
  {
    if posts == [] then None
    else if posts[0].id == id && posts[0].author == username then Some(posts[0])
    else FindPost(posts[1..], id, username)
  }

  /** With unique keys, two posts of the table with the same key are the same post. */
  lemma SameIdSamePost(posts: seq<Post>, p: Post, q: Post)
    requires UniqueIds(posts)
    requires p in posts && q in posts && p.id == q.id
    ensures p == q
  {
    var i :| 0 <= i < |posts| && posts[i] == p;
    var j :| 0 <= j < |posts| && posts[j] == q;
    assert !(i < j) && !(j < i);
  }

  /** The lookup finds the post with that key when the author's name matches,
      and nothing when it names anyone else. */
  lemma LookupNeedsBothKeys(posts: seq<Post>, p: Post, username: Username)
    requires UniqueIds(posts) && p in posts
    ensures FindPost(posts, p.id, username) == if p.author == username then Some(p) else None
  {
    forall q | q in posts && q.id == p.id
      ensures q == p
    {
      SameIdSamePost(posts, p, q);
    }
  }

  /** Text is a required field; the group may be left blank but, when
      chosen, must be an existing group. An unbound form (None: no data was
      posted) is never valid. */
  predicate PostFormValid(form: Option<PostFields>, groups: set<Slug>)
    ensures form.None? ==> !PostFormValid(form, groups)
    ensures form.Some? && form.value.text == [] ==> !PostFormValid(form, groups)
    ensures form.Some? && form.value.text != [] && form.value.group.None? ==> PostFormValid(form, groups)
    ensures form.Some? && form.value.group.Some? && form.value.group.value !in groups ==>
      !PostFormValid(form, groups)
  {
    form.Some? && form.value.text != [] &&
    (form.value.group.Some? ==> form.value.group.value in groups)
  }

  /** The row an edit writes back: the form replaces text and group, and
      the image when a file was uploaded; key, author and pub_date stay. */
  function Edited(p: Post, f: PostFields): (r: Post)
    ensures r.id == p.id && r.author == p.author && r.pubDate == p.pubDate
    ensures r.text == f.text && r.group == f.group
    ensures r.image == if f.image.Some? then f.image else p.image
  {
    p.(text := f.text, group := f.group, image := if f.image.Some? then f.image else p.image)
  }

  /** The table after saving p over the row with p's key. */
  function ReplacePost(posts: seq<Post>, p: Post): (r: seq<Post>)
    ensures |r| == |posts|
    ensures forall i :: 0 <= i < |r| ==> r[i].id == posts[i].id
    ensures forall i :: 0 <= i < |r| && posts[i].id != p.id ==> r[i] == posts[i]
    ensures forall i :: 0 <= i < |r| && posts[i].id == p.id ==> r[i] == p
  {
    Map(posts, (q: Post) => if q.id == p.id then p else q)
  }

  /** SET_NULL: the table after its group `slug` is deleted. Every post stays;
      the posts of that group lose their group and nothing else. */
  function WithoutGroup(posts: seq<Post>, slug: Slug): (r: seq<Post>)
    ensures |r| == |posts|
    ensures forall i :: 0 <= i < |r| ==> r[i] == posts[i].(group := r[i].group)
    ensures forall i :: 0 <= i < |r| ==>
      r[i].group == if posts[i].group == Some(slug) then None else posts[i].group
  {
    Map(posts, (q: Post) => if q.group == Some(slug) then q.(group := None) else q)
  }

  /** CASCADE: the table after its author `u` is deleted. Exactly the posts of
      u are gone, the others stay in their order. */
  function WithoutAuthor(posts: seq<Post>, u: Username): (r: seq<Post>)
    ensures forall p :: p in r <==> p in posts && p.author != u
    ensures |r| == |posts| - |ByAuthor(posts, u)|
  {
    var dropOwn := (p: Post) => p.author != u;
    FilterComplement(posts, (p: Post) => p.author == u, dropOwn);
    Filter(posts, dropOwn)
  }

  /** The comments that survive deleting user u, whose posts are then kept:
      those u did not write, on posts that still exist. */
  function CommentsSurviving(comments: seq<Comment>, kept: seq<Post>, u: Username): (r: seq<Comment>)
    ensures forall c :: c in r <==> c in comments && c.author != u && HasPost(kept, c.post)
  {
    Filter(comments, (c: Comment) => c.author != u && HasPost(kept, c.post))
  }

  /** A filter of the table keeps the keys unique. */
  lemma {:induction false} FilterKeepsIdsUnique(posts: seq<Post>, keep: Post -> bool)
    requires UniqueIds(posts)
    ensures UniqueIds(Filter(posts, keep))
  {
    if posts != [] {
      var rest := posts[1..];
      assert UniqueIds(rest) by {
        forall i, j | 0 <= i < j < |rest| ensures rest[i].id != rest[j].id {
          assert rest[i] == posts[i + 1] && rest[j] == posts[j + 1];
        }
      }
      FilterKeepsIdsUnique(rest, keep);
      if keep(posts[0]) {
        var t := Filter(rest, keep);
        var r := [posts[0]] + t;
        assert Filter(posts, keep) == r;
        forall i, j | 0 <= i < j < |r| ensures r[i].id != r[j].id {
          if i == 0 {
            assert r[j] == t[j - 1] && t[j - 1] in t;
            var k :| 0 <= k < |rest| && rest[k] == r[j];
            assert posts[k + 1] == r[j];
          } else {
            assert r[i] == t[i - 1] && r[j] == t[j - 1];
          }
        }
      }
    }
  }

  /** Rewriting rows in place without touching keys keeps the keys unique
      and every key present. */
  lemma SameKeys(a: seq<Post>, b: seq<Post>)
    requires |a| == |b| && forall i :: 0 <= i < |a| ==> a[i].id == b[i].id
    ensures UniqueIds(a) ==> UniqueIds(b)
    ensures forall id :: HasPost(a, id) ==> HasPost(b, id)
  {
    forall id | HasPost(a, id) ensures HasPost(b, id) {
      var p :| p in a && p.id == id;
      var i :| 0 <= i < |a| && a[i] == p;
      assert b[i] in b && b[i].id == id;
    }
  }

  /** The database: the users, the groups by slug, and the post, comment and
      follow tables, with the counter that hands out post keys. */
  class Store {
    var users: set<Username>
    var groups: map<Slug, Group>
    var posts: seq<Post>
    var comments: seq<Comment>
    var follows: set<Follow>
    var nextId: PostId

    /** The integrity the schema keeps: unique post keys below the counter,
        every foreign key pointing at an existing row, text present. */
    ghost predicate Valid()
      reads this
    {
      && UniqueIds(posts)
      && (forall s :: s in groups ==> groups[s].slug == s)
      && (forall p :: p in posts ==>
            p.id < nextId && p.author in users && p.text != [] &&
            (p.group.Some? ==> p.group.value in groups))
      && (forall c :: c in comments ==> c.author in users && HasPost(posts, c.post))
      && (forall f :: f in follows ==> f.user in users && f.author in users)
    }

    /** A database with the given users and groups and empty tables. */
    constructor (users: set<Username>, groups: map<Slug, Group>)
      requires forall s :: s in groups ==> groups[s].slug == s
      ensures Valid()
      ensures this.users == users && this.groups == groups
      ensures posts == [] && comments == [] && follows == {}
    {
      this.users := users;
      this.groups := groups;
      posts := [];
      comments := [];
      follows := {};
      nextId := 0;
    }

    /** Inserts a post from valid form data: it takes the next key, and
        pub_date is the time of the insert (auto_now_add). */
    method Create(author: Username, f: PostFields, now: Time) returns (p: Post)
      requires Valid()
      requires author in users && PostFormValid(Some(f), groups.Keys)
      modifies this`posts, this`nextId
      ensures Valid()
      ensures p == Post(old(nextId), author, f.group, f.text, now, f.image)
      ensures !HasPost(old(posts), p.id)
      ensures posts == old(posts) + [p]
    {
      p := Post(nextId, author, f.group, f.text, now, f.image);
      ghost var before := posts;
      posts := posts + [p];
      nextId := nextId + 1;
      forall c | c in comments ensures HasPost(posts, c.post) {
        var q :| q in before && q.id == c.post;
        assert q in posts;
      }
    }

    /** Saves p over the stored row with the same key. */
    method Save(p: Post)
      requires Valid()
      requires HasPost(posts, p.id) && p.author in users && p.text != []
      requires p.group.Some? ==> p.group.value in groups
      modifies this`posts
      ensures Valid()
      ensures posts == ReplacePost(old(posts), p)
    {
      ghost var before := posts;
      posts := ReplacePost(posts, p);
      SameKeys(before, posts);
      forall q | q in posts
        ensures q.id < nextId && q.author in users && q.text != [] &&
                (q.group.Some? ==> q.group.value in groups)
      {
        var i :| 0 <= i < |posts| && posts[i] == q;
        assert before[i] in before;
        if before[i].id == p.id {
          var o :| o in before && o.id == p.id;
        }
      }
    }

    /** Deletes group `slug`: its posts stay, with no group. */
    method DeleteGroup(slug: Slug)
      requires Valid()
      modifies this`groups, this`posts
      ensures Valid()
      ensures groups == old(groups) - {slug}
      ensures posts == WithoutGroup(old(posts), slug)
    {
      ghost var before := posts;
      ghost var oldGroups := groups;
      groups := groups - {slug};
      posts := WithoutGroup(posts, slug);
      SameKeys(before, posts);
      forall q | q in posts
        ensures q.id < nextId && q.author in users && q.text != [] &&
                (q.group.Some? ==> q.group.value in groups)
      {
        var i :| 0 <= i < |posts| && posts[i] == q;
        var o := before[i];
        assert o in before;
        assert q.id == o.id && q.author == o.author && q.text == o.text;
        assert q.group.Some? ==> q.group == o.group && o.group.value in oldGroups && o.group.value != slug;
      }
    }

    /** Deletes user u. The posts of u go with it (author: CASCADE), and so do
        the comments u wrote, the comments on the posts that went, and every
        follow edge at either end of u. */
    method DeleteUser(u: Username)
      requires Valid()
      modifies this`users, this`posts, this`comments, this`follows
      ensures Valid()
      ensures users == old(users) - {u}
      ensures posts == WithoutAuthor(old(posts), u)
      ensures comments == CommentsSurviving(old(comments), posts, u)
      ensures follows == set f | f in old(follows) && f.user != u && f.author != u
    {
      FilterKeepsIdsUnique(posts, (p: Post) => p.author != u);
      users := users - {u};
      posts := WithoutAuthor(posts, u);
      comments := CommentsSurviving(comments, posts, u);
      follows := set f | f in follows && f.user != u && f.author != u;
    }
  }
}
