/** `PostService` of app/posts/service.py (app/service.py holds the same class, line for
    line): posts that are not blank, reads newest first with offset and limit, and updates
    and deletes that only the owner may make, a missing post (404) reported before a
    foreign one (403). Deleting a post deletes its likes and comments first. */
module PostService {
  import opened Wrappers
  import opened Text
  import opened Seqs
  import opened Records
  import opened Storage

  const DefaultAllPostsLimit: nat := 50
  const DefaultUserPostsLimit: nat := 10

  const PostEmpty: Failure := HttpError(400, "Posts cannot be empty")
  const PostNotFound: Failure := HttpError(404, "Post not found.")
  const IntegrityError: Failure := InternalError("IntegrityError")

  /** The two owner-only operations; each has its own 403 message. */
  datatype Change = Update | Delete

  function NotOwner(change: Change): Failure {
    match change
    case Update => HttpError(403, "You can only update your own post.")
    case Delete => HttpError(403, "You can only delete your own post.")
  }

  /** `validate_post_content(text)`: rejected when `text.strip()` is empty, that is, when
      every character is white space. */
  function ValidatePostContent(text: string): (r: Result<(), Failure>)
    ensures r.Err? <==> AllSpace(text)
    ensures r.Err? ==> r.error == PostEmpty
  {
    BlankIffAllSpace(text);
    if IsBlank(text) then Err(PostEmpty) else Ok(())
  }

  /** `get_post_by_id(post_id)`. */
  function GetPostById(posts: seq<Post>, postId: string): (r: Option<Post>)
    ensures r.Some? ==> r.value in posts && r.value.id == postId
    ensures r.None? <==> postId !in PostIds(posts)
  {
    First(posts, PostId(postId), PostMatches)
  }

  /** The posts of users that exist (the inner join with `Users`), newest first. */
  function JoinedNewestFirst(posts: seq<Post>, users: seq<User>): (r: seq<Post>)
    ensures multiset(r) == multiset(Select(posts, OwnerAmong(UserIds(users)), PostMatches))
    ensures DescendingBy(r, PostTime)
  {
    SortDesc(Select(posts, OwnerAmong(UserIds(users)), PostMatches), PostTime)
  }

  /** `get_all_posts(skip, limit)`: posts whose owner exists, newest first, after dropping
      `skip` of them, at most `limit`; the page is short only at the end of the table. */
  function GetAllPosts(posts: seq<Post>, users: seq<User>, skip: nat, limit: nat): (r: seq<Post>)
    ensures |r| <= limit
    ensures |r| == limit || skip + |r| >= |Select(posts, OwnerAmong(UserIds(users)), PostMatches)|
    ensures forall p :: p in r ==> p in posts && p.userId in UserIds(users)
    ensures DescendingBy(r, PostTime)
  {
    var sorted := JoinedNewestFirst(posts, users);
    assert |sorted| == |Select(posts, OwnerAmong(UserIds(users)), PostMatches)| by {
      assert |multiset(sorted)| == |sorted|;
    }
    PageOfDescending(sorted, skip, limit, PostTime);
    forall p | p in sorted ensures p in posts && p.userId in UserIds(users) {
      assert p in multiset(sorted);
    }
    Page(sorted, skip, limit)
  }

  /** `get_user_posts(user_id, skip, limit)`: that user's posts, newest first, paged. */
  function GetUserPosts(posts: seq<Post>, userId: string, skip: nat, limit: nat): (r: seq<Post>)
    ensures |r| <= limit
    ensures |r| == limit || skip + |r| >= |Select(posts, PostOwner(userId), PostMatches)|
    ensures forall p :: p in r ==> p in posts && p.userId == userId
    ensures DescendingBy(r, PostTime)
  {
    var mine := Select(posts, PostOwner(userId), PostMatches);
    var sorted := SortDesc(mine, PostTime);
    assert |sorted| == |mine| by {
      assert |multiset(sorted)| == |sorted|;
    }
    PageOfDescending(sorted, skip, limit, PostTime);
    forall p | p in sorted ensures p in posts && p.userId == userId {
      assert p in multiset(sorted);
    }
    Page(sorted, skip, limit)
  }

  /** The lookup and the two checks `update_post` and `delete_post` start with: the post,
      or 404 when there is none, or 403 when someone else owns it. */
  function OwnedPost(posts: seq<Post>, postId: string, userId: string, change: Change): (r: Outcome<Post>)
    ensures r == Err(PostNotFound) <==> postId !in PostIds(posts)
    ensures postId in PostIds(posts) && r.Err? ==> r.error == NotOwner(change)
    ensures r.Ok? ==> r.value in posts && r.value.id == postId && r.value.userId == userId
  {
    match First(posts, PostId(postId), PostMatches)
    case None => Err(PostNotFound)
    case Some(p) => if p.userId != userId then Err(NotOwner(change)) else Ok(p)
  }

  /** `create_post(text, user_id)`: validate, then insert one post stamped `now`; `id` is
      the uuid the column default draws. */
  method CreatePost(db: Database, text: string, userId: string, id: string, now: int) returns (r: Outcome<Post>)
    requires db.Valid()
    modifies db`posts
    ensures db.Valid()
    ensures AllSpace(text) ==> r == Err(PostEmpty)
    ensures r.Ok? ==> !AllSpace(text) && r.value == Post(id, text, userId, now) && db.posts == old(db.posts) + [r.value]
    ensures !AllSpace(text) ==> (r.Ok? <==> id !in PostIds(old(db.posts)))
    ensures r.Err? ==> db.posts == old(db.posts)
  {
    var valid := ValidatePostContent(text);
    if valid.Err? {
      return Err(valid.error);
    }
    var p := Post(id, text, userId, now);
    var ok := db.AddPost(p);
    if ok {
      r := Ok(p);
    } else {
      assert exists q :: q in old(db.posts) && q.id == id;
      r := Err(IntegrityError);
    }
  }

  /** `update_post(post_id, text, user_id)`: after the 404 and 403 checks, the post's text
      becomes `text` (not validated) and nothing else changes. */
  method UpdatePost(db: Database, postId: string, text: string, userId: string) returns (r: Outcome<Post>)
    requires db.Valid()
    modifies db`posts
    ensures db.Valid()
    ensures OwnedPost(old(db.posts), postId, userId, Update).Err? ==>
      r == OwnedPost(old(db.posts), postId, userId, Update) && db.posts == old(db.posts)
    ensures OwnedPost(old(db.posts), postId, userId, Update).Ok? ==>
      && r == Ok(OwnedPost(old(db.posts), postId, userId, Update).value.(text := text))
      && db.posts == WithText(old(db.posts), postId, text)
  {
    r := OwnedPost(db.posts, postId, userId, Update);
    if r.Ok? {
      db.SetPostText(postId, text);
      r := Ok(r.value.(text := text));
    }
  }

  lemma LikeIdsSnoc(likes: seq<Like>, i: nat)
    requires i < |likes|
    ensures LikeIds(likes[..i + 1]) == LikeIds(likes[..i]) + {likes[i].id}
  {
    assert likes[..i + 1] == likes[..i] + [likes[i]];
  }

  lemma CommentIdsSnoc(comments: seq<Comment>, i: nat)
    requires i < |comments|
    ensures CommentIds(comments[..i + 1]) == CommentIds(comments[..i]) + {comments[i].id}
  {
    assert comments[..i + 1] == comments[..i] + [comments[i]];
  }

  /** With distinct like ids, deleting the likes of a post by their ids deletes exactly the
      likes on that post. */
  lemma LikesOfPostById(likes: seq<Like>, postId: string)
    requires DistinctBy(likes, LikeKey)
    ensures Reject(likes, LikeIdAmong(LikeIds(Select(likes, LikeOnPost(postId), LikeMatches))), LikeMatches)
         == Reject(likes, LikeOnPost(postId), LikeMatches)
  {
    var on := Select(likes, LikeOnPost(postId), LikeMatches);
    forall x | x in likes
      ensures LikeMatches(x, LikeIdAmong(LikeIds(on))) <==> LikeMatches(x, LikeOnPost(postId))
    {
      if x.id in LikeIds(on) {
        var y :| y in on && y.id == x.id;
        DistinctKeySame(likes, x, y, LikeKey);
      }
    }
    RejectSame(likes, LikeIdAmong(LikeIds(on)), LikeOnPost(postId), LikeMatches);
  }

  lemma CommentsOfPostById(comments: seq<Comment>, postId: string)
    requires DistinctBy(comments, CommentKey)
    ensures Reject(comments, CommentIdAmong(CommentIds(Select(comments, CommentOnPost(postId), CommentMatches))), CommentMatches)
         == Reject(comments, CommentOnPost(postId), CommentMatches)
  {
    var on := Select(comments, CommentOnPost(postId), CommentMatches);
    forall x | x in comments
      ensures CommentMatches(x, CommentIdAmong(CommentIds(on))) <==> CommentMatches(x, CommentOnPost(postId))
    {
      if x.id in CommentIds(on) {
        var y :| y in on && y.id == x.id;
        DistinctKeySame(comments, x, y, CommentKey);
      }
    }
    RejectSame(comments, CommentIdAmong(CommentIds(on)), CommentOnPost(postId), CommentMatches);
  }

  /** The first loop of `delete_post`: each like on the post, deleted one at a time. */
  method DeleteLikesOfPost(db: Database, postId: string)
    requires db.Valid()
    modifies db`likes
    ensures db.Valid()
    ensures db.likes == Reject(old(db.likes), LikeOnPost(postId), LikeMatches)
  {
    var likes := Select(db.likes, LikeOnPost(postId), LikeMatches);
    ghost var likes0 := db.likes;
    RejectNone(likes0, LikeIdAmong({}), LikeMatches);
    assert LikeIds(likes[..0]) == {};
    var i := 0;
    while i < |likes|
      invariant 0 <= i <= |likes|
      invariant db.Valid()
      invariant db.likes == Reject(likes0, LikeIdAmong(LikeIds(likes[..i])), LikeMatches)
    {
      LikeIdsSnoc(likes, i);
      RejectTwice(likes0, LikeIdAmong(LikeIds(likes[..i])), LikeId(likes[i].id),
                  LikeIdAmong(LikeIds(likes[..i + 1])), LikeMatches);
      db.DeleteLike(likes[i].id);
      i := i + 1;
    }
    assert likes[..|likes|] == likes;
    LikesOfPostById(likes0, postId);
  }

  /** The second loop of `delete_post`: each comment on the post, deleted one at a time. */
  method DeleteCommentsOfPost(db: Database, postId: string)
    requires db.Valid()
    modifies db`comments
    ensures db.Valid()
    ensures db.comments == Reject(old(db.comments), CommentOnPost(postId), CommentMatches)
  {
    var comments := Select(db.comments, CommentOnPost(postId), CommentMatches);
    ghost var comments0 := db.comments;
    RejectNone(comments0, CommentIdAmong({}), CommentMatches);
    assert CommentIds(comments[..0]) == {};
    var j := 0;
    while j < |comments|
      invariant 0 <= j <= |comments|
      invariant db.Valid()
      invariant db.comments == Reject(comments0, CommentIdAmong(CommentIds(comments[..j])), CommentMatches)
    {
      CommentIdsSnoc(comments, j);
      RejectTwice(comments0, CommentIdAmong(CommentIds(comments[..j])), CommentId(comments[j].id),
                  CommentIdAmong(CommentIds(comments[..j + 1])), CommentMatches);
      db.DeleteComment(comments[j].id);
      j := j + 1;
    }
    assert comments[..|comments|] == comments;
    CommentsOfPostById(comments0, postId);
  }

  /** With distinct ids, deleting an existing post by its id removes exactly one row. */
  lemma DeleteOnePost(posts: seq<Post>, p: Post)
    requires DistinctBy(posts, PostKey) && p in posts
    ensures |Reject(posts, PostId(p.id), PostMatches)| == |posts| - 1
  {
    forall i, j | 0 <= i < j < |posts| ensures posts[i] != posts[j] {
      assert PostKey(posts[i]) != PostKey(posts[j]);
    }
    forall y | y in posts && PostMatches(y, PostId(p.id)) ensures y == p {
      DistinctKeySame(posts, y, p, PostKey);
    }
    RejectOne(posts, p, PostId(p.id), PostMatches);
  }

  /** `delete_post(post_id, user_id)`: after the 404 and 403 checks, delete the post's likes,
      then its comments, then the post. */
  method DeletePost(db: Database, postId: string, userId: string) returns (r: Result<(), Failure>)
    requires db.Valid()
    modifies db`posts, db`likes, db`comments
    ensures db.Valid() && db.users == old(db.users)
    ensures OwnedPost(old(db.posts), postId, userId, Delete).Err? ==>
      && r == Err(OwnedPost(old(db.posts), postId, userId, Delete).error)
      && db.posts == old(db.posts) && db.likes == old(db.likes) && db.comments == old(db.comments)
    ensures OwnedPost(old(db.posts), postId, userId, Delete).Ok? ==>
      && r == Ok(())
      && db.likes == Reject(old(db.likes), LikeOnPost(postId), LikeMatches)
      && db.comments == Reject(old(db.comments), CommentOnPost(postId), CommentMatches)
      && db.posts == Reject(old(db.posts), PostId(postId), PostMatches)
      && |db.posts| == |old(db.posts)| - 1
  {
    var owned := OwnedPost(db.posts, postId, userId, Delete);
    if owned.Err? {
      return Err(owned.error);
    }
    DeleteLikesOfPost(db, postId);
    DeleteCommentsOfPost(db, postId);
    DeleteOnePost(db.posts, owned.value);
    db.DeletePost(postId);
    r := Ok(());
  }

  // ---- properties ----------------------------------------------------------------------

  /** With distinct post ids, the owner check passes exactly for the owner of an existing
      post. */
  lemma OwnedPostIff(posts: seq<Post>, postId: string, userId: string, change: Change)
    requires DistinctBy(posts, PostKey)
    ensures OwnedPost(posts, postId, userId, change).Ok? <==>
      exists p :: p in posts && p.id == postId && p.userId == userId
  {
    if p :| p in posts && p.id == postId && p.userId == userId {
      var f := First(posts, PostId(postId), PostMatches);
      DistinctKeySame(posts, f.value, p, PostKey);
    }
  }

  /** `update_post` changes only the text of the one post with that id: every post keeps
      its id, owner and time, and every other post is untouched. */
  lemma UpdateChangesOnlyText(posts: seq<Post>, postId: string, text: string)
    requires DistinctBy(posts, PostKey)
    ensures var r := WithText(posts, postId, text);
      && PostIds(r) == PostIds(posts)
      && (forall p :: p in posts && p.id != postId ==> p in r)
      && (forall p :: p in r && p.id == postId ==> p.text == text)
      && |Select(r, PostId(postId), PostMatches)| == |Select(posts, PostId(postId), PostMatches)|
  {
    var r := WithText(posts, postId, text);
    forall p | p in posts && p.id != postId ensures p in r {
      var k :| 0 <= k < |posts| && posts[k] == p;
      assert r[k] == p;
    }
    WithTextKeepsIds(posts, postId, text);
    SelectIdCount(posts, postId, text);
  }

  /** The update keeps the set of post ids. */
  lemma WithTextKeepsIds(posts: seq<Post>, postId: string, text: string)
    ensures PostIds(WithText(posts, postId, text)) == PostIds(posts)
  {
    var r := WithText(posts, postId, text);
    forall x | x in PostIds(r) ensures x in PostIds(posts) {
      var q :| q in r && q.id == x;
      var k :| 0 <= k < |r| && r[k] == q;
      assert posts[k].id == x;
    }
    forall x | x in PostIds(posts) ensures x in PostIds(r) {
      var q :| q in posts && q.id == x;
      var k :| 0 <= k < |posts| && posts[k] == q;
      assert r[k].id == x;
    }
  }

  lemma {:induction false} SelectIdCount(posts: seq<Post>, postId: string, text: string)
    ensures |Select(WithText(posts, postId, text), PostId(postId), PostMatches)| == |Select(posts, PostId(postId), PostMatches)|
  {
    if posts != [] {
      SelectIdCount(posts[1..], postId, text);
      var r := WithText(posts, postId, text);
      assert r[1..] == WithText(posts[1..], postId, text);
    }
  }

  /** Deleting a post leaves every other post's like and comment counts as they were. */
  lemma OtherPostsKeepCounts(likes: seq<Like>, comments: seq<Comment>, postId: string, other: string)
    requires other != postId
    ensures Select(Reject(likes, LikeOnPost(postId), LikeMatches), LikeOnPost(other), LikeMatches)
         == Select(likes, LikeOnPost(other), LikeMatches)
    ensures Select(Reject(comments, CommentOnPost(postId), CommentMatches), CommentOnPost(other), CommentMatches)
         == Select(comments, CommentOnPost(other), CommentMatches)
  {
    SelectAfterReject(likes, LikeOnPost(postId), LikeOnPost(other), LikeMatches);
    SelectAfterReject(comments, CommentOnPost(postId), CommentOnPost(other), CommentMatches);
  }

  /** Reading the feed page by page yields the feed: two consecutive pages are the page
      that spans both. */
  lemma FeedPagesConsecutive(posts: seq<Post>, users: seq<User>, skip: nat, a: nat, b: nat)
    ensures GetAllPosts(posts, users, skip, a) + GetAllPosts(posts, users, skip + a, b)
         == GetAllPosts(posts, users, skip, a + b)
  {
    PageSplit(JoinedNewestFirst(posts, users), skip, a, b);
  }

  /** Adjacent pages of one user's posts join without loss or repetition: the page at
      `skip` of size `a` followed by the page at `skip + a` of size `b` is the page at
      `skip` of size `a + b`. */
  lemma UserPostPagesConsecutive(posts: seq<Post>, userId: string, skip: nat, a: nat, b: nat)
    ensures GetUserPosts(posts, userId, skip, a) + GetUserPosts(posts, userId, skip + a, b)
         == GetUserPosts(posts, userId, skip, a + b)
  {
    PageSplit(SortDesc(Select(posts, PostOwner(userId), PostMatches), PostTime), skip, a, b);
  }

  /** One page large enough holds every post of the user exactly once. */
  lemma UserPostsCompleteWhenUnpaged(posts: seq<Post>, userId: string, limit: nat)
    requires limit >= |posts|
    ensures multiset(GetUserPosts(posts, userId, 0, limit)) == multiset(Select(posts, PostOwner(userId), PostMatches))
  {
    var sorted := SortDesc(Select(posts, PostOwner(userId), PostMatches), PostTime);
    assert |sorted| == |multiset(sorted)|;
    assert Page(sorted, 0, limit) == sorted;
  }

  /** One page large enough holds every post of an existing user exactly once. */
  lemma FeedCompleteWhenUnpaged(posts: seq<Post>, users: seq<User>, limit: nat)
    requires limit >= |posts|
    ensures multiset(GetAllPosts(posts, users, 0, limit)) == multiset(Select(posts, OwnerAmong(UserIds(users)), PostMatches))
  {
    var sorted := JoinedNewestFirst(posts, users);
    assert |sorted| == |multiset(sorted)|;
    assert Page(sorted, 0, limit) == sorted;
  }
}
