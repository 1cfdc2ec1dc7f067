/** The handlers of app/users/routes.py beyond register, login and refresh (which are the
    `AuthRoutes` ones): a user's public record by id, and a user's posts, newest first and
    paged, as `PostPublic` bodies. */
module UserRoutes {
  import opened Wrappers
  import opened Seqs
  import opened Records
  import UserService
  import PostService

  const UserNotFound: Failure := HttpError(404, "User not found")
  const PostsOwnerNotFound: Failure := HttpError(404, "User not Found.")

  const DefaultSkip: nat := 0
  const DefaultLimit: nat := 10

  /** `get_user_by_id` (the route): the `UserResponse` of the user with that id, or 404. */
  function GetUserById(users: seq<User>, userId: string): (r: Outcome<UserView>)
    ensures r.Err? <==> userId !in UserIds(users)
    ensures r.Err? ==> r.error == UserNotFound
    ensures r.Ok? ==> exists u :: u in users && u.id == userId && r.value == UserToDict(u)
  {
    match UserService.GetUserById(users, userId)
    case None => Err(UserNotFound)
    case Some(u) => Ok(UserToDict(u))
  }

  /** The `to_dict()` of each post, in order; every post must have its owner stored. */
  function PostViews(ps: seq<Post>, users: seq<User>, likes: seq<Like>, comments: seq<Comment>): (r: seq<PostView>)
    requires forall p :: p in ps ==> p.userId in UserIds(users)
    ensures |r| == |ps|
    ensures forall i :: 0 <= i < |ps| ==> r[i].id == ps[i].id && r[i].text == ps[i].text
                                          && r[i].userId == ps[i].userId && r[i].createdAt == ps[i].createdAt
    ensures forall i :: 0 <= i < |ps| ==> r[i] == PostToDict(ps[i], users, likes, comments)
  {
    if ps == [] then []
    else [PostToDict(ps[0], users, likes, comments)] + PostViews(ps[1..], users, likes, comments)
  }

  /** `get_user_post`: 404 for an unknown user, checked before any post is read; otherwise
      the `to_dict()` of each post `get_user_posts` returns. */
  function GetUserPost(users: seq<User>, posts: seq<Post>, likes: seq<Like>, comments: seq<Comment>,
                       userId: string, skip: nat, limit: nat): (r: Outcome<seq<PostView>>)
    ensures r.Err? <==> userId !in UserIds(users)
    ensures r.Err? ==> r.error == PostsOwnerNotFound
    ensures r.Ok? ==> |r.value| <= limit
    ensures r.Ok? ==> forall v :: v in r.value ==>
                        v.userId == userId && exists p :: p in posts && p.id == v.id && p.userId == userId
                                                          && p.text == v.text && p.createdAt == v.createdAt
                                                          && v == PostToDict(p, users, likes, comments)
    ensures r.Ok? ==> forall i, j :: 0 <= i < j < |r.value| ==> r.value[i].createdAt >= r.value[j].createdAt
    ensures r.Ok? ==> |r.value| == limit
                      || skip + |r.value| >= |Select(posts, PostOwner(userId), PostMatches)|
  {
    if UserService.GetUserById(users, userId).None? then Err(PostsOwnerNotFound)
    else
      var ps := PostService.GetUserPosts(posts, userId, skip, limit);
      var views := PostViews(ps, users, likes, comments);
      assert forall v :: v in views ==>
               v.userId == userId && exists p :: p in posts && p.id == v.id && p.userId == userId
                                                 && p.text == v.text && p.createdAt == v.createdAt
                                                 && v == PostToDict(p, users, likes, comments) by {
        forall v | v in views
          ensures v.userId == userId && exists p :: p in posts && p.id == v.id && p.userId == userId
                                                    && p.text == v.text && p.createdAt == v.createdAt
                                                    && v == PostToDict(p, users, likes, comments)
        {
          var i :| 0 <= i < |views| && views[i] == v;
          assert ps[i] in ps;
        }
      }
      Ok(views)
  }

  // ---- properties ----------------------------------------------------------------------

  /** The views of two adjacent runs of posts are the views of the run they make together. */
  lemma {:induction false} PostViewsAppend(a: seq<Post>, b: seq<Post>, users: seq<User>, likes: seq<Like>,
                                           comments: seq<Comment>)
    requires forall p :: p in a + b ==> p.userId in UserIds(users)
    ensures PostViews(a + b, users, likes, comments) == PostViews(a, users, likes, comments) + PostViews(b, users, likes, comments)
    decreases |a|
  {
    if a == [] {
      assert a + b == b;
    } else {
      assert (a + b)[1..] == a[1..] + b;
      PostViewsAppend(a[1..], b, users, likes, comments);
    }
  }

  /** Paging a user's posts loses and repeats nothing: the page at `skip` of size `a`
      followed by the page at `skip + a` of size `b` is the page at `skip` of size `a + b`. */
  lemma {:induction false} UserPostPagesConsecutive(users: seq<User>, posts: seq<Post>, likes: seq<Like>,
                                                    comments: seq<Comment>, userId: string, skip: nat, a: nat, b: nat)
    requires userId in UserIds(users)
    ensures GetUserPost(users, posts, likes, comments, userId, skip, a).value
            + GetUserPost(users, posts, likes, comments, userId, skip + a, b).value
            == GetUserPost(users, posts, likes, comments, userId, skip, a + b).value
  {
    PostService.UserPostPagesConsecutive(posts, userId, skip, a, b);
    var first := PostService.GetUserPosts(posts, userId, skip, a);
    var second := PostService.GetUserPosts(posts, userId, skip + a, b);
    PostViewsAppend(first, second, users, likes, comments);
  }
}
