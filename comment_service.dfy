/** `CommentService` of app/backend/comments/service.py (app/service.py holds the same
    class): comments go only on existing posts, are not blank, and read newest first. */
module CommentService {
  import opened Wrappers
  import opened Text
  import opened Seqs
  import opened Records
  import opened Storage

  const DefaultCommentsLimit: nat := 10

  const CommentEmpty: Failure := HttpError(400, "Comment cannot be empty")
  const PostMissingOnCreate: Failure := HttpError(404, "No Post found.")
  const PostMissingOnRead: Failure := HttpError(404, "No Post Found.")
  const IntegrityError: Failure := InternalError("IntegrityError")

  /** `validate_comment_content(text)`: rejected when every character is white space. */
  function ValidateCommentContent(text: string): (r: Result<(), Failure>)
    ensures r.Err? <==> AllSpace(text)
    ensures r.Err? ==> r.error == CommentEmpty
  {
    BlankIffAllSpace(text);
    if IsBlank(text) then Err(CommentEmpty) else Ok(())
  }

  /** The checks of `create_comment`, in order: the post exists (404), then the text is not
      blank (400). */
  function CreateCommentCheck(posts: seq<Post>, postId: string, text: string): (r: Option<Failure>)
    ensures r == Some(PostMissingOnCreate) <==> postId !in PostIds(posts)
    ensures r == Some(CommentEmpty) <==> postId in PostIds(posts) && AllSpace(text)
    ensures r.None? <==> postId in PostIds(posts) && !AllSpace(text)
  {
    if First(posts, PostId(postId), PostMatches).None? then Some(PostMissingOnCreate)
    else match ValidateCommentContent(text)
      case Err(f) => Some(f)
      case Ok(_) => None
  }

  /** `create_comment(post_id, text, user_id)`: the checks, then one new comment stamped
      `now`; `id` is the uuid the column default draws. */
  method CreateComment(db: Database, postId: string, text: string, userId: string, id: string, now: int)
    returns (r: Outcome<Comment>)
    requires db.Valid()
    modifies db`comments
    ensures db.Valid()
    ensures CreateCommentCheck(db.posts, postId, text).Some? ==>
      r == Err(CreateCommentCheck(db.posts, postId, text).value)
    ensures r.Ok? ==>
      && CreateCommentCheck(db.posts, postId, text).None?
      && r.value == Comment(id, text, userId, postId, now)
      && db.comments == old(db.comments) + [r.value]
    ensures CreateCommentCheck(db.posts, postId, text).None? ==> (r.Ok? <==> id !in CommentIds(old(db.comments)))
    ensures r.Err? ==> db.comments == old(db.comments)
  {
    var check := CreateCommentCheck(db.posts, postId, text);
    if check.Some? {
      return Err(check.value);
    }
    var c := Comment(id, text, userId, postId, now);
    var ok := db.AddComment(c);
    if ok {
      r := Ok(c);
    } else {
      assert exists d :: d in old(db.comments) && d.id == id;
      r := Err(IntegrityError);
    }
  }

  /** `get_post_comments(post_id, skip, limit)`: 404 for a missing post, otherwise the
      post's comments newest first, after dropping `skip`, at most `limit`. */
  function GetPostComments(posts: seq<Post>, comments: seq<Comment>, postId: string, skip: nat, limit: nat)
    : (r: Outcome<seq<Comment>>)
    ensures r.Err? <==> postId !in PostIds(posts)
    ensures r.Err? ==> r.error == PostMissingOnRead
    ensures r.Ok? ==> |r.value| <= limit && DescendingBy(r.value, CommentTime)
    ensures r.Ok? ==> forall c :: c in r.value ==> c in comments && c.postId == postId
    ensures r.Ok? ==> |r.value| == limit || skip + |r.value| >= |Select(comments, CommentOnPost(postId), CommentMatches)|
  {
    if First(posts, PostId(postId), PostMatches).None? then Err(PostMissingOnRead)
    else
      var on := Select(comments, CommentOnPost(postId), CommentMatches);
      var sorted := SortDesc(on, CommentTime);
      assert |sorted| == |on| by {
        assert |multiset(sorted)| == |sorted|;
      }
      PageOfDescending(sorted, skip, limit, CommentTime);
      forall c | c in sorted ensures c in comments && c.postId == postId {
        assert c in multiset(sorted);
      }
      Ok(Page(sorted, skip, limit))
  }

  /** Adjacent pages of a post's comments join without loss or repetition. */
  lemma CommentPagesConsecutive(posts: seq<Post>, comments: seq<Comment>, postId: string, skip: nat, a: nat, b: nat)
    requires postId in PostIds(posts)
    ensures GetPostComments(posts, comments, postId, skip, a).value
            + GetPostComments(posts, comments, postId, skip + a, b).value
         == GetPostComments(posts, comments, postId, skip, a + b).value
  {
    PageSplit(SortDesc(Select(comments, CommentOnPost(postId), CommentMatches), CommentTime), skip, a, b);
  }

  /** One page large enough holds every comment on the post exactly once. */
  lemma CommentsCompleteWhenUnpaged(posts: seq<Post>, comments: seq<Comment>, postId: string, limit: nat)
    requires postId in PostIds(posts) && limit >= |comments|
    ensures multiset(GetPostComments(posts, comments, postId, 0, limit).value)
         == multiset(Select(comments, CommentOnPost(postId), CommentMatches))
  {
    var sorted := SortDesc(Select(comments, CommentOnPost(postId), CommentMatches), CommentTime);
    assert |sorted| == |multiset(sorted)|;
    assert Page(sorted, 0, limit) == sorted;
  }

  /** A new comment shows up on the first page of its post's comments when it is the
      newest and the page has room. */
  lemma {:induction false} NewCommentListed(posts: seq<Post>, comments: seq<Comment>, c: Comment, limit: nat)
    requires c.postId in PostIds(posts) && limit >= 1
    requires forall d :: d in comments ==> d.createdAt < c.createdAt
    ensures GetPostComments(posts, comments + [c], c.postId, 0, limit).Ok?
    ensures c in GetPostComments(posts, comments + [c], c.postId, 0, limit).value
  {
    var all := comments + [c];
    var on := Select(all, CommentOnPost(c.postId), CommentMatches);
    var sorted := SortDesc(on, CommentTime);
    assert c in on;
    assert c in multiset(sorted);
    var k :| 0 <= k < |sorted| && sorted[k] == c;
    assert sorted[0] in multiset(on);
    assert CommentTime(sorted[0]) >= CommentTime(c);
    assert sorted[0] !in comments;
    var page := Page(sorted, 0, limit);
    assert |page| >= 1 && page[0] == sorted[0];
  }
}
