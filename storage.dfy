/** The database the services share, as in-memory tables in insertion order. Each table
    keeps the keys and unique constraints its model declares; an insert that would break one
    fails as the database's `IntegrityError` does, and changes nothing. Foreign keys are not
    part of `Valid`: the SQLite database the app defaults to does not enforce them. */
module Storage {
  import opened Wrappers
  import opened Text
  import opened Seqs
  import opened Records

  /** Which unique index the `Users` table carries on `email`. */
  datatype EmailRule =
    | LowerCaseUnique   // an index on lower(email): no two emails equal ignoring case
    | ExactUnique       // unique=True on the column: no two emails equal as written

  /** Two stored emails collide under the table's email index. */
  predicate EmailClash(a: string, b: string, rule: EmailRule) {
    match rule
    case LowerCaseUnique => Lower(a) == Lower(b)
    case ExactUnique => a == b
  }

  ghost predicate UsersValid(users: seq<User>, rule: EmailRule) {
    && DistinctBy(users, UserKey)
    && DistinctBy(users, UsernameKey)
    && (match rule
        case LowerCaseUnique => DistinctBy(users, LowerEmailKey)
        case ExactUnique => DistinctBy(users, EmailKey))
  }

  ghost predicate LikesValid(likes: seq<Like>) {
    DistinctBy(likes, LikeKey) && DistinctBy(likes, LikePairKey)
  }

  ghost predicate TokensValid(tokens: seq<VerificationToken>) {
    DistinctBy(tokens, TokenKey) && DistinctBy(tokens, TokenStringKey)
  }

  /** The checks the database makes on an insert into `Users`: a new primary key, a new
      username, and an email that does not collide under the email index. */
  predicate UserInsertable(users: seq<User>, u: User, rule: EmailRule) {
    forall v :: v in users ==> v.id != u.id && v.username != u.username && !EmailClash(v.email, u.email, rule)
  }

  predicate PostInsertable(posts: seq<Post>, p: Post) {
    forall q :: q in posts ==> q.id != p.id
  }

  predicate CommentInsertable(comments: seq<Comment>, c: Comment) {
    forall d :: d in comments ==> d.id != c.id
  }

  /** A new primary key, and no like yet for the same (user, post) pair. */
  predicate LikeInsertable(likes: seq<Like>, l: Like) {
    forall m :: m in likes ==> m.id != l.id && (m.userId, m.postId) != (l.userId, l.postId)
  }

  /** A new primary key and a token string no other row holds. */
  predicate TokenInsertable(tokens: seq<VerificationToken>, t: VerificationToken) {
    forall o :: o in tokens ==> o.id != t.id && o.token != t.token
  }

  /** The posts after `post.text = text` on the post whose id is `id`. */
  function WithText(posts: seq<Post>, id: string, text: string): (r: seq<Post>)
    ensures |r| == |posts|
    ensures forall i :: 0 <= i < |r| ==>
      r[i] == if posts[i].id == id then posts[i].(text := text) else posts[i]
  {
    if posts == [] then []
    else [if posts[0].id == id then posts[0].(text := text) else posts[0]] + WithText(posts[1..], id, text)
  }

  class Database {
    var users: seq<User>
    var posts: seq<Post>
    var comments: seq<Comment>
    var likes: seq<Like>
    var verificationTokens: seq<VerificationToken>
    /** The email index of the `Users` table this database was created with. */
    const emailRule: EmailRule

    ghost predicate Valid()
      reads this
    {
      && UsersValid(users, emailRule)
      && DistinctBy(posts, PostKey)
      && DistinctBy(comments, CommentKey)
      && LikesValid(likes)
      && TokensValid(verificationTokens)
    }

    constructor (rule: EmailRule)
      ensures Valid() && emailRule == rule
      ensures users == [] && posts == [] && comments == [] && likes == [] && verificationTokens == []
    {
      emailRule := rule;
      users, posts, comments, likes, verificationTokens := [], [], [], [], [];
    }

    /** `db.add(user); db.commit()`. */
    method AddUser(u: User) returns (ok: bool)
      requires Valid()
      modifies this`users
      ensures Valid()
      ensures ok == UserInsertable(old(users), u, emailRule)
      ensures users == if ok then old(users) + [u] else old(users)
    {
      ok := UserInsertable(users, u, emailRule);
      if ok {
        DistinctAppend(users, u, UserKey);
        DistinctAppend(users, u, UsernameKey);
        match emailRule {
          case LowerCaseUnique => DistinctAppend(users, u, LowerEmailKey);
          case ExactUnique => DistinctAppend(users, u, EmailKey);
        }
        users := users + [u];
      }
    }

    /** `db.add(post); db.commit()`. */
    method AddPost(p: Post) returns (ok: bool)
      requires Valid()
      modifies this`posts
      ensures Valid()
      ensures ok == PostInsertable(old(posts), p)
      ensures posts == if ok then old(posts) + [p] else old(posts)
    {
      ok := PostInsertable(posts, p);
      if ok {
        DistinctAppend(posts, p, PostKey);
        posts := posts + [p];
      }
    }

    /** `db.add(comment); db.commit()`. */
    method AddComment(c: Comment) returns (ok: bool)
      requires Valid()
      modifies this`comments
      ensures Valid()
      ensures ok == CommentInsertable(old(comments), c)
      ensures comments == if ok then old(comments) + [c] else old(comments)
    {
      ok := CommentInsertable(comments, c);
      if ok {
        DistinctAppend(comments, c, CommentKey);
        comments := comments + [c];
      }
    }

    /** `db.add(like); db.commit()`, under the unique (user_id, post_id) constraint. */
    method AddLike(l: Like) returns (ok: bool)
      requires Valid()
      modifies this`likes
      ensures Valid()
      ensures ok == LikeInsertable(old(likes), l)
      ensures likes == if ok then old(likes) + [l] else old(likes)
    {
      ok := LikeInsertable(likes, l);
      if ok {
        DistinctAppend(likes, l, LikeKey);
        DistinctAppend(likes, l, LikePairKey);
        likes := likes + [l];
      }
    }

    /** `db.add(token); db.commit()`, under the unique token-string index. */
    method AddVerificationToken(t: VerificationToken) returns (ok: bool)
      requires Valid()
      modifies this`verificationTokens
      ensures Valid()
      ensures ok == TokenInsertable(old(verificationTokens), t)
      ensures verificationTokens == if ok then old(verificationTokens) + [t] else old(verificationTokens)
    {
      ok := TokenInsertable(verificationTokens, t);
      if ok {
        DistinctAppend(verificationTokens, t, TokenKey);
        DistinctAppend(verificationTokens, t, TokenStringKey);
        verificationTokens := verificationTokens + [t];
      }
    }

    /** `db.delete(like)`: the row with that primary key goes. */
    method DeleteLike(id: string)
      requires Valid()
      modifies this`likes
      ensures Valid()
      ensures likes == Reject(old(likes), LikeId(id), LikeMatches)
    {
      DistinctReject(likes, LikeId(id), LikeMatches, LikeKey);
      DistinctReject(likes, LikeId(id), LikeMatches, LikePairKey);
      likes := Reject(likes, LikeId(id), LikeMatches);
    }

    /** `db.delete(comment)`. */
    method DeleteComment(id: string)
      requires Valid()
      modifies this`comments
      ensures Valid()
      ensures comments == Reject(old(comments), CommentId(id), CommentMatches)
    {
      DistinctReject(comments, CommentId(id), CommentMatches, CommentKey);
      comments := Reject(comments, CommentId(id), CommentMatches);
    }

    /** `db.delete(post)`. */
    method DeletePost(id: string)
      requires Valid()
      modifies this`posts
      ensures Valid()
      ensures posts == Reject(old(posts), PostId(id), PostMatches)
    {
      DistinctReject(posts, PostId(id), PostMatches, PostKey);
      posts := Reject(posts, PostId(id), PostMatches);
    }

    /** `post.text = text; db.commit()`. */
    method SetPostText(id: string, text: string)
      requires Valid()
      modifies this`posts
      ensures Valid()
      ensures posts == WithText(old(posts), id, text)
    {
      var r := WithText(posts, id, text);
      forall i, j | 0 <= i < j < |r| ensures PostKey(r[i]) != PostKey(r[j]) {
        assert PostKey(r[i]) == PostKey(posts[i]) && PostKey(r[j]) == PostKey(posts[j]);
      }
      posts := r;
    }
  }
}
