/** `LikeService` of app/backend/likes/service.py (app/service.py holds the same class):
    at most one like per (user, post), a missing post (404) reported before a duplicate
    (403) or a missing like (400), and unlike deletes exactly the like that was found. */
module LikeService {
  import opened Wrappers
  import opened Seqs
  import opened Records
  import opened Storage

  const PostMissingOnLike: Failure := HttpError(404, "No Post Found.")
  const PostMissingOnUnlike: Failure := HttpError(404, "No post Found.")
  const AlreadyLiked: Failure := HttpError(403, "Already liked.")
  const NotLiked: Failure := HttpError(400, "Not Liked")
  const IntegrityError: Failure := InternalError("IntegrityError")

  /** The user has a like on the post. */
  predicate HasLiked(likes: seq<Like>, userId: string, postId: string) {
    exists l :: l in likes && l.userId == userId && l.postId == postId
  }

  /** The checks of `like_post`, in order: the post exists (404), then the user has not
      liked it yet (403). */
  function LikeCheck(posts: seq<Post>, likes: seq<Like>, postId: string, userId: string): (r: Option<Failure>)
    ensures r == Some(PostMissingOnLike) <==> postId !in PostIds(posts)
    ensures r == Some(AlreadyLiked) <==> postId in PostIds(posts) && HasLiked(likes, userId, postId)
    ensures r.None? <==> postId in PostIds(posts) && !HasLiked(likes, userId, postId)
  {
    if First(posts, PostId(postId), PostMatches).None? then Some(PostMissingOnLike)
    else if First(likes, LikePair(userId, postId), LikeMatches).Some? then Some(AlreadyLiked)
    else None
  }

  /** `like_post(post_id, user_id)`: the checks, then one new like; `id` is the uuid the
      column default draws. */
  method LikePost(db: Database, postId: string, userId: string, id: string) returns (r: Outcome<Like>)
    requires db.Valid()
    modifies db`likes
    ensures db.Valid()
    ensures LikeCheck(db.posts, old(db.likes), postId, userId).Some? ==>
      r == Err(LikeCheck(db.posts, old(db.likes), postId, userId).value)
    ensures r.Ok? ==>
      && LikeCheck(db.posts, old(db.likes), postId, userId).None?
      && r.value == Like(id, userId, postId)
      && db.likes == old(db.likes) + [r.value]
    ensures LikeCheck(db.posts, old(db.likes), postId, userId).None? ==> (r.Ok? <==> id !in LikeIds(old(db.likes)))
    ensures r.Err? ==> db.likes == old(db.likes)
  {
    var check := LikeCheck(db.posts, db.likes, postId, userId);
    if check.Some? {
      return Err(check.value);
    }
    var l := Like(id, userId, postId);
    var ok := db.AddLike(l);
    if ok {
      r := Ok(l);
    } else {
      assert exists m :: m in old(db.likes) && m.id == id;
      r := Err(IntegrityError);
    }
  }

  /** The lookups of `unlike_post`, in order: the post (404), then the user's like on it
      (400). */
  function UnlikeTarget(posts: seq<Post>, likes: seq<Like>, postId: string, userId: string): (r: Outcome<Like>)
    ensures r == Err(PostMissingOnUnlike) <==> postId !in PostIds(posts)
    ensures r == Err(NotLiked) <==> postId in PostIds(posts) && !HasLiked(likes, userId, postId)
    ensures r.Ok? ==> r.value in likes && r.value.userId == userId && r.value.postId == postId
  {
    if First(posts, PostId(postId), PostMatches).None? then Err(PostMissingOnUnlike)
    else match First(likes, LikePair(userId, postId), LikeMatches)
      case None => Err(NotLiked)
      case Some(l) => Ok(l)
  }

  /** `unlike_post(post_id, user_id)`: the lookups, then the deletion of the like found. */
  method UnlikePost(db: Database, postId: string, userId: string) returns (r: Result<(), Failure>)
    requires db.Valid()
    modifies db`likes
    ensures db.Valid()
    ensures UnlikeTarget(db.posts, old(db.likes), postId, userId).Err? ==>
      r == Err(UnlikeTarget(db.posts, old(db.likes), postId, userId).error) && db.likes == old(db.likes)
    ensures UnlikeTarget(db.posts, old(db.likes), postId, userId).Ok? ==>
      && r == Ok(())
      && db.likes == Reject(old(db.likes), LikeId(UnlikeTarget(db.posts, old(db.likes), postId, userId).value.id), LikeMatches)
      && |db.likes| == |old(db.likes)| - 1
  {
    var target := UnlikeTarget(db.posts, db.likes, postId, userId);
    if target.Err? {
      return Err(target.error);
    }
    DeleteOneLike(db.likes, target.value);
    db.DeleteLike(target.value.id);
    r := Ok(());
  }

  /** `get_user_likes(user_id)`: exactly the likes the user made, in table order. */
  function GetUserLikes(likes: seq<Like>, userId: string): (r: seq<Like>)
    ensures forall l :: l in r <==> l in likes && l.userId == userId
    ensures forall l {:trigger multiset(r)[l]} :: multiset(r)[l] == if l.userId == userId then multiset(likes)[l] else 0
    ensures |r| <= |likes|
  {
    Select(likes, LikeBy(userId), LikeMatches)
  }

  // ---- properties ----------------------------------------------------------------------

  /** With distinct ids, deleting a stored like by its id removes exactly one row. */
  lemma DeleteOneLike(likes: seq<Like>, l: Like)
    requires DistinctBy(likes, LikeKey) && l in likes
    ensures |Reject(likes, LikeId(l.id), LikeMatches)| == |likes| - 1
  {
    forall i, j | 0 <= i < j < |likes| ensures likes[i] != likes[j] {
      assert LikeKey(likes[i]) != LikeKey(likes[j]);
    }
    forall y | y in likes && LikeMatches(y, LikeId(l.id)) ensures y == l {
      DistinctKeySame(likes, y, l, LikeKey);
    }
    RejectOne(likes, l, LikeId(l.id), LikeMatches);
  }

  /** Unlike removes the user's like on the post and nothing else: no like of that pair is
      left, and every other like stays. */
  lemma {:induction false} UnlikeRemovesThePair(posts: seq<Post>, likes: seq<Like>, postId: string, userId: string)
    requires LikesValid(likes)
    requires UnlikeTarget(posts, likes, postId, userId).Ok?
    ensures var rest := Reject(likes, LikeId(UnlikeTarget(posts, likes, postId, userId).value.id), LikeMatches);
      && !HasLiked(rest, userId, postId)
      && forall m :: m in likes && (m.userId, m.postId) != (userId, postId) ==> m in rest
  {
    var l := UnlikeTarget(posts, likes, postId, userId).value;
    var rest := Reject(likes, LikeId(l.id), LikeMatches);
    forall m | m in likes && (m.userId, m.postId) == (userId, postId) ensures m.id == l.id {
      assert LikePairKey(m) == LikePairKey(l);
      DistinctKeySame(likes, m, l, LikePairKey);
    }
    forall m | m in likes && (m.userId, m.postId) != (userId, postId) ensures m in rest {
      assert m != l;
      if m.id == l.id {
        DistinctKeySame(likes, m, l, LikeKey);
      }
    }
  }

  /** Liking a post and then unliking it restores the like table. */
  lemma {:induction false} LikeThenUnlikeRestores(posts: seq<Post>, likes: seq<Like>, postId: string, userId: string, id: string)
    requires LikeCheck(posts, likes, postId, userId).None?
    requires id !in LikeIds(likes)
    ensures var liked := likes + [Like(id, userId, postId)];
      && UnlikeTarget(posts, liked, postId, userId) == Ok(Like(id, userId, postId))
      && Reject(liked, LikeId(id), LikeMatches) == likes
  {
    var l := Like(id, userId, postId);
    FirstAppend(likes, l, LikePair(userId, postId), LikeMatches);
    RejectAppend(likes, l, LikeId(id), LikeMatches);
    RejectNone(likes, LikeId(id), LikeMatches);
  }

  /** After a successful like, the user has liked the post, and the pair is still unique. */
  lemma LikeKeepsPairsUnique(likes: seq<Like>, l: Like)
    requires LikesValid(likes) && LikeInsertable(likes, l)
    ensures LikesValid(likes + [l]) && HasLiked(likes + [l], l.userId, l.postId)
  {
    DistinctAppend(likes, l, LikeKey);
    DistinctAppend(likes, l, LikePairKey);
    assert (likes + [l])[|likes|] == l;
  }
}
