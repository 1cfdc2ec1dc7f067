/** The rows of the tables (users, posts, comments, likes, email-verification tokens), the
    filters the services query them with, and the `to_dict` projections the handlers return. */
module Records {
  import opened Wrappers
  import opened Text
  import opened Seqs

  /** A row of `Users`. `id` is a uuid string drawn at insert time. */
  datatype User = User(id: string, username: string, email: string, hashedPassword: string)

  /** A row of `Posts`; `createdAt` is the server's clock at insert, in seconds. */
  datatype Post = Post(id: string, text: string, userId: string, createdAt: int)

  /** A row of `Comments`. */
  datatype Comment = Comment(id: string, text: string, userId: string, postId: string, createdAt: int)

  /** A row of `Likes`. */
  datatype Like = Like(id: string, userId: string, postId: string)

  /** A row of `EmailVerificationTokens`: `usedAt` is null until the token is redeemed. */
  datatype VerificationToken = VerificationToken(
    id: string, userId: string, token: string, createdAt: int, usedAt: Option<int>, expiredAt: int)

  // ---- filters -------------------------------------------------------------------------

  /** The `filter(...)` conditions the code puts on `User`. */
  datatype UserFilter =
    | UserId(id: string)
    | Username(username: string)
    | EmailIs(email: string)                 // User.email == email
    | EmailLowerIs(email: string)            // func.lower(User.email) == email.lower()

  predicate UserMatches(u: User, f: UserFilter) {
    match f
    case UserId(id) => u.id == id
    case Username(name) => u.username == name
    case EmailIs(e) => u.email == e
    case EmailLowerIs(e) => Lower(u.email) == Lower(e)
  }

  datatype PostFilter =
    | PostId(id: string)
    | PostOwner(userId: string)
    | OwnerAmong(userIds: set<string>)       // the inner join with `Users`

  predicate PostMatches(p: Post, f: PostFilter) {
    match f
    case PostId(id) => p.id == id
    case PostOwner(userId) => p.userId == userId
    case OwnerAmong(ids) => p.userId in ids
  }

  datatype CommentFilter = CommentId(id: string) | CommentOnPost(postId: string) | CommentIdAmong(ids: set<string>)

  predicate CommentMatches(c: Comment, f: CommentFilter) {
    match f
    case CommentId(id) => c.id == id
    case CommentOnPost(postId) => c.postId == postId
    case CommentIdAmong(ids) => c.id in ids
  }

  datatype LikeFilter =
    | LikeId(id: string)
    | LikeOnPost(postId: string)
    | LikeBy(userId: string)
    | LikePair(userId: string, postId: string)
    | LikeIdAmong(ids: set<string>)

  predicate LikeMatches(l: Like, f: LikeFilter) {
    match f
    case LikeId(id) => l.id == id
    case LikeOnPost(postId) => l.postId == postId
    case LikeBy(userId) => l.userId == userId
    case LikePair(userId, postId) => l.userId == userId && l.postId == postId
    case LikeIdAmong(ids) => l.id in ids
  }

  // ---- keys ----------------------------------------------------------------------------

  function UserKey(u: User): string { u.id }
  function UsernameKey(u: User): string { u.username }
  function EmailKey(u: User): string { u.email }
  function LowerEmailKey(u: User): string { Lower(u.email) }
  function PostKey(p: Post): string { p.id }
  function PostTime(p: Post): int { p.createdAt }
  function CommentKey(c: Comment): string { c.id }
  function CommentTime(c: Comment): int { c.createdAt }
  function LikeKey(l: Like): string { l.id }
  function LikePairKey(l: Like): (string, string) { (l.userId, l.postId) }
  function TokenKey(t: VerificationToken): string { t.id }
  function TokenStringKey(t: VerificationToken): string { t.token }

  function UserIds(users: seq<User>): set<string> { set u | u in users :: u.id }
  function PostIds(posts: seq<Post>): set<string> { set p | p in posts :: p.id }
  function LikeIds(likes: seq<Like>): set<string> { set l | l in likes :: l.id }
  function CommentIds(comments: seq<Comment>): set<string> { set c | c in comments :: c.id }

  // ---- to_dict -------------------------------------------------------------------------

  /** `User.to_dict()`, the `UserResponse` body. */
  datatype UserView = UserView(id: string, username: string, email: string)

  function UserToDict(u: User): UserView {
    UserView(u.id, u.username, u.email)
  }

  /** `to_dict` exposes id, username and email and nothing of the password hash: users that
      differ only in their hash look the same, and each exposed field is the user's own. */
  lemma UserToDictHidesHash(u: User, hash: string)
    ensures UserToDict(u.(hashedPassword := hash)) == UserToDict(u)
    ensures UserToDict(u).id == u.id && UserToDict(u).username == u.username
    ensures UserToDict(u).email == u.email
  {
  }

  /** `Like.to_dict()`: the liker's username comes through the `user` relationship. */
  datatype LikeView = LikeView(id: string, userId: string, username: string, postId: string)

  function LikeToDict(l: Like, users: seq<User>): (r: LikeView)
    requires l.userId in UserIds(users)
    ensures exists u :: u in users && u.id == l.userId && r.username == u.username
    ensures r.id == l.id && r.userId == l.userId && r.postId == l.postId
  {
    var owner := First(users, UserId(l.userId), UserMatches);
    LikeView(l.id, l.userId, owner.value.username, l.postId)
  }

  /** `Post.to_dict()`: the owner's username and the sizes of the post's `likes` and
      `comments` collections. */
  datatype PostView = PostView(
    id: string, text: string, userId: string, username: string, createdAt: int,
    likeCount: nat, commentCount: nat)

  function PostToDict(p: Post, users: seq<User>, likes: seq<Like>, comments: seq<Comment>): (r: PostView)
    requires p.userId in UserIds(users)
    ensures exists u :: u in users && u.id == p.userId && r.username == u.username
    ensures r.id == p.id && r.text == p.text && r.userId == p.userId && r.createdAt == p.createdAt
    ensures r.likeCount == |Select(likes, LikeOnPost(p.id), LikeMatches)|
    ensures r.commentCount == |Select(comments, CommentOnPost(p.id), CommentMatches)|
  {
    var owner := First(users, UserId(p.userId), UserMatches);
    PostView(p.id, p.text, p.userId, owner.value.username, p.createdAt,
             |Select(likes, LikeOnPost(p.id), LikeMatches)|,
             |Select(comments, CommentOnPost(p.id), CommentMatches)|)
  }

  /** Liking a post raises its `like_count` by one; a like on another post leaves it. */
  lemma LikeCountAfterLike(p: Post, users: seq<User>, likes: seq<Like>, comments: seq<Comment>, l: Like)
    requires p.userId in UserIds(users)
    ensures l.postId == p.id ==>
      PostToDict(p, users, likes + [l], comments).likeCount == PostToDict(p, users, likes, comments).likeCount + 1
    ensures l.postId != p.id ==>
      PostToDict(p, users, likes + [l], comments) == PostToDict(p, users, likes, comments)
  {
    SelectAppend(likes, l, LikeOnPost(p.id), LikeMatches);
  }

  /** Commenting on a post raises its `comment_count` by one. */
  lemma CommentCountAfterComment(p: Post, users: seq<User>, likes: seq<Like>, comments: seq<Comment>, c: Comment)
    requires p.userId in UserIds(users)
    ensures c.postId == p.id ==>
      PostToDict(p, users, likes, comments + [c]).commentCount == PostToDict(p, users, likes, comments).commentCount + 1
    ensures c.postId != p.id ==>
      PostToDict(p, users, likes, comments + [c]) == PostToDict(p, users, likes, comments)
  {
    SelectAppend(comments, c, CommentOnPost(p.id), CommentMatches);
  }
}
