/** The records of the posts app and what a request handler answers.

    Users are identified by their username and groups by their slug: both are
    unique in the application, so comparing two users (as `author != request.user`
    does) is comparing their usernames. */
module Models {

  datatype Option<+T> = None | Some(value: T)

  type Username = string
  type Slug = string
  /** A point in time, as a date-time column stores it. */
  type Time = int
  /** The primary key of a post, as the `<int:post_id>` part of a URL carries it. */
  type PostId = nat

  /** An uploaded image, kept as an opaque reference to the stored file. */
  datatype Image = Image(name: string)

  datatype Group = Group(title: string, slug: Slug, description: string)

  /** A row of the post table. `group` is the nullable foreign key to a group. */
  datatype Post = Post(
    id: PostId,
    author: Username,
    group: Option<Slug>,
    text: string,
    pubDate: Time,
    image: Option<Image>)

  datatype Comment = Comment(post: PostId, author: Username, text: string, created: Time)

  /** The edge "user follows author". */
  datatype Follow = Follow(user: Username, author: Username)

  /** The fields a post form submits. `image` is None when no file was uploaded. */
  datatype PostFields = PostFields(text: string, group: Option<Slug>, image: Option<Image>)

  /** Who sent the request: an anonymous visitor or a logged-in user. */
  datatype Requester = Guest | Member(username: Username)

  /** The named routes of the app, with their arguments. */
  datatype Route =
    | IndexUrl
    | NewPostUrl
    | GroupPostsUrl(slug: Slug)
    | ProfileUrl(username: Username)
    | PostUrl(username: Username, postId: PostId)
    | PostEditUrl(username: Username, postId: PostId)
    | AddCommentUrl(username: Username, postId: PostId)
    | FollowIndexUrl
    | ProfileFollowUrl(username: Username)
    | ProfileUnfollowUrl(username: Username)

  /** The data a rendered template receives. */
  datatype Context =
    | IndexContext(page: seq<Post>)
    | GroupContext(group: Group, page: seq<Post>)
    | ProfileContext(author: Username, page: seq<Post>, following: bool)
    | PostContext(post: Post, author: Username, comments: seq<Comment>, following: bool)
      /** new.html; `editing` holds the post when the form edits one */
    | PostFormContext(editing: Option<Post>)
    | CommentsContext(post: Post, comments: seq<Comment>)
    | FollowContext(page: seq<Post>)

  /** What a handler answers: a rendered page, a redirect, a 404, or a
      redirect to the login page that remembers where the guest was going. */
  datatype Outcome =
    | Render(context: Context)
    | Redirect(target: Route)
    | NotFound
    | LoginRedirect(next: Route)
}
