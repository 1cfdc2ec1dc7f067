# chatr core in Dafny

This project models the server core of chatr, a small FastAPI social app. Users register
and log in, posts carry likes and comments, and access to the API goes through JWT bearer
tokens. The model covers four parts:

- **Tokens and passwords.** `Jwt`, `Hasher`, `AuthService` and `LegacyAuth` model
  app/auth/service.py and the older app/auth.py. Access and refresh tokens differ in
  lifetime and in a `type` claim. `verify_token` answers every failure with one 401. The
  legacy token has no `type` claim at all.
- **User registry.** `UserService` models app/users/service.py; the `UserService` class in
  app/service.py is the same code line for line. The table constraints of
  app/users/models.py and app/models.py live in `Storage`. The registration checks run in a
  fixed order before any insert. Emails are unique ignoring case in the newer code and as
  written in the legacy code (`LegacyRoutes`, app/routes.py).
- **Auth gateway handlers.** `AuthRoutes` models app/auth/routes.py. The register, login
  and refresh handlers of app/users/routes.py are the same code, and so are login and
  refresh of app/backend/auth/routes.py. `BackendAuthRoutes` models what the backend
  register adds (a verification token and a queued email) and verify-email. `UserRoutes`
  models the two read handlers of app/users/routes.py.
- **Social tables.** `PostService` models app/posts/service.py. `CommentService` models
  app/backend/comments/service.py and `LikeService` models app/backend/likes/service.py.
  The classes of the same names in app/service.py are identical to these.

The database is one class, `Storage.Database`. Each table is a sequence field in insertion
order. `Valid()` holds the primary keys and the unique constraints the models declare. An
insert that would break one fails and changes nothing, as SQLAlchemy's `IntegrityError`
would leave the table. The service code receives that failure as
`InternalError("IntegrityError")`. Queries are functions over table snapshots. `.first()`
is `Seqs.First`, `.filter(...).all()` is `Seqs.Select`, `order_by(created_at.desc())` is
`Seqs.SortDesc` and `.offset().limit()` is `Seqs.Page`. Operations that write are methods
that modify only the tables they touch. The clock (`now`, in seconds), the configuration
(`AuthService.Settings`), the uuids the column defaults draw and the bcrypt salt are
parameters.

## Model

| member | source | states |
|---|---|---|
| Text.Strip | app/posts/service.py:22 | `text.strip()` is a slice of the text with only white space before and after it, and it neither starts nor ends with white space: exactly the surrounding white space is removed |
| Text.BlankIffAllSpace | app/posts/service.py:22 | `not text.strip()` holds exactly when every character of the text is white space |
| Text.Lower | app/users/service.py:19 | `lower()` keeps the length and lower-cases each character in place, leaving no upper-case letter |
| Text.LowerIdempotent | app/users/service.py:36 | lower-casing an email that is already lower-cased changes nothing, so passing `email.lower()` to a check that lowers again is harmless |
| Text.SameIgnoringCaseIsEquivalence | app/users/service.py:19 | "equal after lower()" is reflexive, symmetric and transitive |
| Text.NatToString | app/backend/auth/routes.py:101 | `str(status_code)` is a non-empty string of decimal digits, without a leading zero, that denotes the number |
| Seqs.Select | app/posts/service.py:57 | a filtered query returns exactly the rows that match, each as many times as the table holds it, and no rows that do not match |
| Seqs.Reject | app/posts/service.py:84-86 | deleting the matching rows keeps exactly the rows that do not match, each as many times as the table holds it |
| Seqs.First | app/users/service.py:19 | `.first()` returns a matching row, and returns nothing exactly when no row matches |
| Seqs.SortDesc | app/posts/service.py:57 | `order_by(created_at.desc())` returns a permutation of the rows, in non-increasing time order |
| Seqs.Page | app/posts/service.py:57 | `.offset(skip).limit(limit)` returns the rows from position `skip` on, at most `limit` of them, and exactly `min(limit, rest)` when `skip` is within the rows |
| Seqs.PageSplit | app/posts/service.py:43 | the page at `skip` of size `a`, then the page at `skip + a` of size `b`, is the page at `skip` of size `a + b` |
| Seqs.PageOfDescending | app/posts/service.py:57 | a page of a newest-first list is newest-first and holds only rows of that list |
| Hasher.HashPassword | app/auth/service.py:24-28 | the hash is the `$2b$12$` prefix and the 22-character salt, followed by the stand-in digest (whose length is the stand-in's, see "## Left out") |
| Hasher.Utf8 | app/auth/service.py:27 | `password.encode("utf-8")` has at least one byte per character, and an ASCII password is its own encoding |
| Hasher.BcryptKey | app/auth/service.py:27 | bcrypt reads at most the first 72 bytes of the encoded password, and all of it when it is shorter |
| Hasher.VerifyHashed | app/auth/service.py:24-32 | `verify_password(p, hash_password(p))` holds, whatever salt was drawn |
| Hasher.VerifyRejectsOther | app/auth/service.py:30-32 | a password that differs from the hashed one within the first 72 bytes does not verify against the hash |
| Hasher.ShortAsciiKeyIsPassword | app/auth/service.py:27 | an ASCII password of at most 72 characters is read whole, so two different such passwords never verify against each other |
| Hasher.LongPasswordsCollide | app/auth/service.py:27-32 | two passwords that share their first 72 bytes verify against each other's hash, whatever follows |
| Hasher.HashHidesPassword | app/auth/service.py:26-28 | the stored hash is not the plain password when bcrypt reads all of it, and two salts give two different hashes |
| Jwt.Decode | app/auth/service.py:59 | decoding succeeds exactly for a token signed with this key under HS256 whose `exp` has not passed and whose `sub` is a string, and then returns the claims that were signed |
| Jwt.DecodeEncode | app/auth/service.py:41 | a token this key signed decodes to its claims while `now <= exp`, and fails as expired after that |
| Jwt.DecodeOtherKey | app/auth/service.py:59 | a token signed with another key never decodes |
| AuthService.LoadSecretKey | app/auth/service.py:14-16 | the module loads exactly when the secret is set and non-empty, and otherwise fails with the RuntimeError message |
| AuthService.Stamp | app/auth/service.py:37-40 | the encoded claims are a copy of the caller's claims plus `exp` (and `type` when given), with every other claim unchanged |
| AuthService.CreateAccessToken | app/auth/service.py:34-43 | an HS256 token signed with the secret, holding the caller's claims plus `exp = now + minutes*60` and `type = "access"` |
| AuthService.CreateRefreshToken | app/auth/service.py:45-54 | the same, with `exp = now + days*86400` and `type = "refresh"` |
| AuthService.VerifyToken | app/auth/service.py:56-67 | the payload is returned exactly when the token decodes, has a `sub` and has `type` equal to the requested kind; every other case is 401 "Token invalid or expired." |
| AuthService.GetUserDetails | app/auth/service.py:70-86 | succeeds exactly for a valid access token whose `sub` is exactly some stored email, and returns that user; a token that fails `verify_token` gives 401 "Token invalid or expired.", and a valid one with no such user gives 401 "User not found" |
| AuthService.TokenLifetimes | app/app/config.py:11-12 | under the declared bounds, an access token lives 1 to 1440 whole minutes, and a refresh token of at least one day outlives it |
| AuthService.KindsAreSeparate | app/auth/service.py:63-64 | no token passes both the access check and the refresh check |
| AuthService.AccessTokenRoundTrip | app/auth/service.py:34-65 | an access token for `e` verifies as access with `sub = e` until it expires, then fails, and never verifies as refresh |
| AuthService.RefreshTokenRoundTrip | app/auth/service.py:45-65 | the same for a refresh token, over the refresh lifetime |
| AuthService.ForeignTokenRejected | app/auth/service.py:66-67 | a token signed with another secret fails with the same 401 |
| AuthService.UserDetailsOfOwnToken | app/auth/service.py:70-86 | a live access token for a stored user's email returns that user, when emails are unique |
| AuthService.PasswordRoundTrip | app/auth/service.py:24-32 | `verify_password(p, hash_password(p))`, and the hash is not the password when bcrypt reads all of it |
| LegacyAuth.CreateToken | app/auth.py:33-42 | the caller's claims plus `exp = now + 30 min` and nothing else, HS256-signed |
| LegacyAuth.GetUserDetails | app/auth.py:44-61 | succeeds exactly when the token decodes, has a `sub`, and some stored email equals it exactly; a decode failure or a missing `sub` is 401 "Invalid Token", a missing user 401 "User not found" |
| LegacyAuth.TokenRoundTrip | app/auth.py:33-61 | a legacy token for a stored user opens the legacy lookup for 30 minutes and fails with "Invalid Token" after |
| LegacyAuth.LegacyAcceptsRefreshToken | app/auth.py:48-53 | with no `type` check, the legacy lookup accepts a newer refresh token, while the newer `get_user_details` rejects it |
| Records.UserToDictHidesHash | app/users/models.py:18-24 | `to_dict` exposes exactly id, username and email, so it does not depend on the password hash |
| Records.LikeToDict | app/backend/likes/models.py:19-26 | id, user_id and post_id are the like's own, and username is the liking user's |
| Records.PostToDict | app/app/posts/models.py:18-27 | id, text, user_id and created_at are the post's own, username is the owner's, and like_count and comment_count are the numbers of likes and comments on that post (what `Seqs.Select` returns for it, row for row) |
| Records.LikeCountAfterLike | app/app/posts/models.py:25 | a like on the post raises `like_count` by one, and a like on another post leaves the view unchanged |
| Records.CommentCountAfterComment | app/app/posts/models.py:26 | the same for `comment_count` |
| Storage.WithText | app/posts/service.py:68 | assigning `post.text` changes the text of the rows with that id and nothing else, position by position |
| Storage.Database.AddUser | app/users/models.py:8-16 | the insert succeeds exactly when id, username and email (under the table's email index) are all new; it then appends the row, and otherwise changes nothing |
| Storage.Database.AddPost | app/app/posts/models.py:9 | the insert succeeds exactly for a new primary key |
| Storage.Database.AddComment | app/backend/comments/service.py:28-34 | the insert succeeds exactly for a new primary key |
| Storage.Database.AddLike | app/backend/likes/models.py:9-17 | the insert succeeds exactly for a new id and a new (user_id, post_id) pair |
| Storage.Database.AddVerificationToken | app/auth/model.py:9-14 | the insert succeeds exactly for a new id and a new token string |
| Storage.Database.DeleteLike | app/backend/likes/service.py:53-54 | the rows with that id leave the like table, and the constraints still hold |
| Storage.Database.DeleteComment | app/posts/service.py:90-91 | the rows with that id leave the comment table |
| Storage.Database.DeletePost | app/posts/service.py:94-95 | the rows with that id leave the post table |
| Storage.Database.SetPostText | app/posts/service.py:68-69 | the post table becomes `WithText` of the old one |
| UserService.CheckEmailExists | app/users/service.py:17-19 | true exactly when some stored email equals the given one ignoring case |
| UserService.CheckUsernameExists | app/users/service.py:21-23 | true exactly when some stored username equals the given one as written |
| UserService.ValidatePassword | app/users/service.py:25-31 | 400 "Password has to be at least 6 characters" exactly when the password has fewer than 6 characters |
| UserService.CreateUserCheck | app/users/service.py:35-44 | the first failing check decides the error, in the order email (ignoring case), username, password; no error exactly when all three pass |
| UserService.CheckedUserInsertable | app/users/models.py:8-16 | a user that passed the checks can only clash with the table on its id |
| UserService.CreateUser | app/users/service.py:33-56 | a rejection leaves the table unchanged; success appends one row with the email as given and the hashed password; after the checks pass, failure means the id was taken (IntegrityError) |
| UserService.AuthenticateUser | app/users/service.py:58-65 | success returns a stored user whose email equals the given one ignoring case and whose hash verifies; every failure is the same 401 "Invalid credentials" |
| UserService.GetUserByEmail | app/users/service.py:67-69 | returns a user with the email ignoring case, and returns none exactly when there is none |
| UserService.GetUserById | app/users/service.py:71-73 | returns a user with that exact id, and returns none exactly when there is none |
| UserService.AuthenticateIff | app/users/service.py:58-65 | with emails unique ignoring case, login succeeds exactly when some user has the email ignoring case and the password verifies |
| UserService.LoginAfterRegister | app/users/service.py:33-65 | after `create_user(u, e, p)`, `authenticate_user(e', p)` returns the new user for every `e'` equal to `e` ignoring case |
| UserService.WrongPasswordRejected | app/users/service.py:62-63 | a password that differs from the right one within the 72 bytes bcrypt reads gets 401 "Invalid credentials", even for a known email |
| PostService.ValidatePostContent | app/posts/service.py:20-23 | 400 "Posts cannot be empty" exactly when the text is all white space |
| PostService.GetPostById | app/posts/service.py:45-50 | returns a post with that id, and returns none exactly when there is none |
| PostService.JoinedNewestFirst | app/posts/service.py:40-43 | the inner join with Users keeps exactly the posts whose owner is stored, as a permutation in newest-first order |
| PostService.GetAllPosts | app/posts/service.py:38-43 | at most `limit` posts, all with a stored owner, newest first; the page is full unless the feed ends |
| PostService.GetUserPosts | app/posts/service.py:52-57 | at most `limit` posts, all of that user, newest first; the page is full unless the user's posts end, and which posts it holds is pinned by `UserPostPagesConsecutive` and `UserPostsCompleteWhenUnpaged` |
| PostService.OwnedPost | app/posts/service.py:61-66 | 404 exactly when the post is missing; otherwise 403 unless the caller owns it; success returns the caller's post |
| PostService.CreatePost | app/posts/service.py:25-36 | blank text is 400 with the table unchanged; success appends the post stamped `now`; after validation, failure means the id was taken |
| PostService.UpdatePost | app/posts/service.py:59-71 | 404 before 403 with the table unchanged; otherwise only the text of that post changes, to the new text, which is not validated |
| PostService.LikesOfPostById | app/posts/service.py:84-86 | deleting the fetched likes one by one by id removes exactly the post's likes |
| PostService.CommentsOfPostById | app/posts/service.py:89-91 | deleting the fetched comments one by one by id removes exactly the post's comments |
| PostService.DeleteLikesOfPost | app/posts/service.py:84-86 | the loop leaves the like table without the post's likes and with every other like, in order |
| PostService.DeleteCommentsOfPost | app/posts/service.py:89-91 | the loop leaves the comment table without the post's comments and with every other comment, in order |
| PostService.DeleteOnePost | app/posts/service.py:94 | with distinct ids, deleting a stored post by its id removes exactly one row |
| PostService.DeletePost | app/posts/service.py:73-95 | 404 before 403 with nothing changed; otherwise the post's likes, then its comments, then the post go, and nothing else |
| PostService.OwnedPostIff | app/posts/service.py:61-66 | with distinct post ids, the owner check passes exactly for the owner of an existing post |
| PostService.UpdateChangesOnlyText | app/posts/service.py:68 | after the update, every post keeps its id, every other post is untouched, and the updated post has the new text |
| PostService.WithTextKeepsIds | app/posts/service.py:68 | the text update keeps the set of post ids unchanged |
| PostService.OtherPostsKeepCounts | app/posts/service.py:83-91 | deleting a post leaves the likes and comments of every other post as they were |
| PostService.FeedPagesConsecutive | app/posts/service.py:43 | two consecutive feed pages are the page that spans both |
| PostService.FeedCompleteWhenUnpaged | app/posts/service.py:40-43 | a page as large as the table holds every post with a stored owner exactly once |
| PostService.UserPostPagesConsecutive | app/posts/service.py:52-57 | adjacent pages of a user's posts join into the larger page: nothing is lost or repeated between pages |
| PostService.UserPostsCompleteWhenUnpaged | app/posts/service.py:52-57 | a page as large as the table from offset 0 holds every post of the user exactly once |
| CommentService.ValidateCommentContent | app/backend/comments/service.py:14-17 | 400 "Comment cannot be empty" exactly when the text is all white space |
| CommentService.CreateCommentCheck | app/backend/comments/service.py:22-26 | a missing post (404 "No Post found.") is reported before blank text (400); no error exactly when the post exists and the text is not blank |
| CommentService.CreateComment | app/backend/comments/service.py:19-36 | a rejection leaves the table unchanged; success appends the comment stamped `now`; after the checks, failure means the id was taken |
| CommentService.GetPostComments | app/backend/comments/service.py:38-45 | 404 "No Post Found." exactly for a missing post; otherwise at most `limit` of the post's comments, newest first, a full page unless they end, and which comments it holds is pinned by `CommentPagesConsecutive` and `CommentsCompleteWhenUnpaged` |
| CommentService.NewCommentListed | app/backend/comments/service.py:28-45 | a comment newer than all others is on the first page of its post's comments |
| CommentService.CommentPagesConsecutive | app/backend/comments/service.py:38-45 | adjacent pages of a post's comments join into the larger page: nothing is lost or repeated between pages |
| CommentService.CommentsCompleteWhenUnpaged | app/backend/comments/service.py:38-45 | a page as large as the table from offset 0 holds every comment on the post exactly once |
| LikeService.LikeCheck | app/backend/likes/service.py:15-26 | 404 exactly for a missing post; otherwise 403 exactly when the user already liked it |
| LikeService.LikePost | app/backend/likes/service.py:12-35 | a rejection leaves the table unchanged; success appends one like for the pair; after the checks, failure means the id was taken |
| LikeService.UnlikeTarget | app/backend/likes/service.py:40-51 | 404 exactly for a missing post; otherwise 400 exactly when the user has no like on it; success is that user's like on that post |
| LikeService.UnlikePost | app/backend/likes/service.py:37-54 | a rejection leaves the table unchanged; success deletes the like found, one row fewer |
| LikeService.GetUserLikes | app/backend/likes/service.py:56-58 | exactly the likes the user made, each as many times as the table holds it |
| LikeService.DeleteOneLike | app/backend/likes/service.py:53 | with distinct ids, deleting a stored like removes exactly one row |
| LikeService.UnlikeRemovesThePair | app/backend/likes/service.py:45-54 | after unlike the user has no like on the post, and every other like stays |
| LikeService.LikeThenUnlikeRestores | app/backend/likes/service.py:12-54 | liking and then unliking a post restores the like table |
| LikeService.LikeKeepsPairsUnique | app/backend/likes/models.py:17 | a successful like keeps (user_id, post_id) unique and records that the user liked the post |
| AuthRoutes.IssueTokens | app/auth/routes.py:24-31 | the response is the user's `to_dict` plus an access and a refresh token, each with exactly `sub`, `exp` and `type`, `sub` being the stored email |
| AuthRoutes.Register | app/auth/routes.py:15-31 | `create_user`'s rejections reach the client unchanged and before any token exists; success appends the user and returns its tokens |
| AuthRoutes.Login | app/auth/routes.py:33-48 | succeeds exactly when `authenticate_user` does, with the tokens of a user whose email equals the given one ignoring case; otherwise 401 "Invalid credentials" |
| AuthRoutes.RefreshAttempt | app/auth/routes.py:55-69 | every failure inside the `try` is an `HTTPException` |
| AuthRoutes.GetRefreshToken | app/auth/routes.py:50-71 | succeeds exactly for a valid refresh token whose `sub` is exactly a stored email, and then returns that user with a new pair; every failure, the 404 included, is 401 "Token invalid or expired." |
| AuthRoutes.IssuedTokensVerify | app/auth/routes.py:24-25 | the issued access token passes the access check and the refresh token the refresh check, each with the user's email, while they live; neither passes the other check |
| AuthRoutes.RefreshRotates | app/auth/routes.py:62-69 | a live refresh token of a stored user yields that user's new pair, whose refresh token refreshes again |
| AuthRoutes.RefreshRefusals | app/auth/routes.py:55-60 | an access token never refreshes, and neither does the token of a user who is gone; both get the same 401 |
| AuthRoutes.LoginAfterRegister | app/auth/routes.py:16-48 | after register, login with any case variant of the email and the password returns the new user and its tokens |
| BackendAuthRoutes.RegisterFailure | app/backend/auth/routes.py:38-41 | an `HTTPException` is raised again unchanged, and anything else becomes 500 "Registration failed. Try again." |
| BackendAuthRoutes.Register | app/backend/auth/routes.py:17-41 | `create_user`'s 400s pass through unchanged; a failed user insert or a failed verification-token insert gives the 500; success stores the user, an unused token for its id stamped `now`, queues exactly one email (email, token, username) and returns the pair; no email is queued on failure |
| BackendAuthRoutes.ExceptionText | app/backend/auth/routes.py:101 | `str(e)` of an `HTTPException` is "<status>: <detail>", the status written in decimal digits that denote it, so it ends with the detail; of any other exception it is the message |
| BackendAuthRoutes.VerifyEmail | app/backend/auth/routes.py:84-101 | true gives success with "Email verified successfully!", false gives failure with "Invalid or expired verification token", and anything raised gives 500 "Error during verification " followed by the cause |
| BackendAuthRoutes.VerifyEmailAnswers | app/backend/auth/routes.py:90-99 | the two answers differ in their message, so the message tells success apart |
| BackendAuthRoutes.VerifyEmailKeepsCause | app/backend/auth/routes.py:100-101 | the 500 ends with the detail of the `HTTPException` that caused it |
| UserRoutes.GetUserById | app/users/routes.py:81-91 | 404 "User not found" exactly when no user has the id; otherwise that user's `to_dict` |
| UserRoutes.PostViews | app/users/routes.py:105 | one `to_dict` per post, in order: each view is `Records.PostToDict` of its post, so it carries that post's id, text, owner and time |
| UserRoutes.GetUserPost | app/users/routes.py:93-105 | 404 "User not Found." exactly for an unknown user; otherwise at most `limit` views, newest first, a full page unless the user's posts end, each view being the `to_dict` of a stored post of that user with that post's id, text and time |
| UserRoutes.PostViewsAppend | app/users/routes.py:105 | the views of two runs of posts are the views of the two runs joined |
| UserRoutes.UserPostPagesConsecutive | app/users/routes.py:104-105 | two consecutive pages of a user's posts are the page that spans both |
| LegacyRoutes.RegisterCheck | app/routes.py:15-27 | the first failing check decides the error, in the order email (exact), username, password; no error exactly when all pass |
| LegacyRoutes.Respond | app/routes.py:40-44 | the response is the user's `to_dict` and a legacy token with exactly `sub` and `exp`, `sub` being the stored email |
| LegacyRoutes.Register | app/routes.py:12-44 | a rejection leaves the table unchanged; after the checks, the insert succeeds exactly when the table's constraints allow the row, which is then appended and answered |
| LegacyRoutes.Login | app/routes.py:46-60 | success answers for a stored user whose email equals the given one exactly and whose hash verifies; every failure is 401 "Invalid credentials" |
| LegacyRoutes.CheckedUserInsertable | app/models.py:7-9 | on the legacy table, a user that passed the checks can only clash on its id |
| LegacyRoutes.LoginAfterRegister | app/routes.py:46-60 | after register, login with the same email and password answers with the new user, and its token opens the legacy `get_user_details` for that user |
| LegacyRoutes.LoginIsCaseSensitive | app/routes.py:50-53 | a spelling of the email that no stored email equals exactly is refused, even with the right password |
| LegacyRoutes.CaseVariantOnlyLegacyAccepts | app/routes.py:16-18 | with "A@x" stored, the legacy checks let "a@x" register, while `create_user` refuses it as already registered |

## Left out

- Concurrency: the race between the uniqueness checks and the insert is not modelled. Operations run one after another, and the unique indexes are the backstop the insert methods model.
- JWT wire format: base64url segments, JSON and HMAC-SHA256 itself are not modelled. A token is its claims plus a symbolic signature, and signatures are unforgeable by construction.
- Jwt.Decode: checks only what tokens of this system can carry (algorithm, signature, `exp`, the type of `sub`). The `nbf`, `iat`, `aud`, `iss` and `jti` checks are not modelled.
- Hasher.Digest: bcrypt's EksBlowfish is a stand-in that keeps the first 72 UTF-8 bytes of the password, so the model does not capture that a hash cannot be inverted, and it has no collisions among those bytes. Only "verifies with the right password, fails with one that differs within those bytes" is used.
- Hasher.HashPassword: a real bcrypt hash is always 60 characters (prefix, salt and a 31-character digest). The stand-in digest is the bytes bcrypt reads, so the model's hash is as long as those bytes plus 29; its length clause, and the "hash is not the password" clause of `Hasher.HashHidesPassword` that rests on it, describe the stand-in, not bcrypt.
- Hasher.BcryptKey: follows bcrypt 4, which silently ignores bytes past the 72nd. bcrypt 5 raises `ValueError` for a longer password instead; the version is not pinned, and that error path is not modelled.
- Hasher.VerifyRejectsOther and UserService.WrongPasswordRejected: promise rejection only for a password that differs within the first 72 bytes, because bcrypt reads no more (`Hasher.LongPasswordsCollide`). No handler caps the password length.
- Hasher.HashHidesPassword and AuthService.PasswordRoundTrip: "the hash is not the password" is promised only for passwords of at most 72 bytes. With the stand-in digest, a longer password built to repeat its own prefix and salt could equal its own hash.
- Clock: `datetime.utcnow()` is the parameter `now` in whole seconds. python-jose's conversion of `exp` to an integer timestamp is taken as exact.
- Configuration loading (app/config.py, app/app/config.py, environment variables) is not modelled. The three settings the token code reads are the `AuthService.Settings` parameter, and their declared bounds are `ValidSettings`. app/auth/service.py imports `settings` from app/config.py, whose live code defines a `Settings` class (secret key, database URL, SMTP and Brevo fields) and `get_settings()`, but no module-level `settings` and no token-lifetime fields; the model takes the intended settings object, with those lifetimes, as given.
- Email verification: `create_verification_token`, `validate_email_token` and `send_verification_email` are not part of this model. The token's id, string and expiry are parameters of `BackendAuthRoutes.Register`, and the validator's answer (or what it raises) is the parameter of `BackendAuthRoutes.VerifyEmail`. Queued emails are returned, not sent.
- The `show_profile` handlers return `to_dict()` of the user that `get_user_details` finds; those two pieces are modelled and the handler itself is not. Extracting the bearer credential from the request is not modelled.
- In the login handlers the `if user is not None` branch is always taken, because `authenticate_user` raises rather than returning `None`. The model has no unbound-variable path.
- The legacy app/models.py declares an Integer `id` and no `to_dict`, while app/routes.py stores `str(uuid4())` and calls `to_dict()`. The model keeps string ids and uses the `to_dict` of app/users/models.py. app/auth.py:7 and app/service.py:6 also import `Post` (and app/service.py `Comment` and `Like`) from app/models.py, which defines only `User`, so neither module can be imported as written; the model takes the intended modules.
- Foreign keys are not part of `Storage.Database.Valid`, because SQLite does not enforce them by default. `Records.LikeToDict` and `Records.PostToDict` require the related user to be stored, as the Python code does when it follows the relationship.
- The ORM cascades declared on `Post` (`delete-orphan`) are not modelled separately, because `delete_post` deletes the likes and comments itself. The model applies each deletion immediately; `delete_post` has no failure point between them, so the state after commit is the same.
- Column lengths (`String(36)`, `String(50)`, `String(100)`, `String(1000)`) are not enforced; SQLite does not enforce them either.
- `Seqs.SortDesc`: rows with equal `created_at` come out in one fixed order. SQL leaves their order unspecified.
- `skip` and `limit` are natural numbers. Negative values are handed to the database as they are, and their effect is not modelled.
- Text.Lower: lower-cases ASCII letters only, as SQLite's `lower()` does; Python's `str.lower()` on non-ASCII letters is not modelled.
- An `IntegrityError` is not caught outside the backend register handler. The model reports it as `InternalError("IntegrityError")`, which FastAPI would turn into a 500.
- Pydantic request and response schemas, including `EmailStr` validation, are library behaviour and are not modelled.
- Thin route files that only call a service, app/main.py, the database setup files, migrations, the integration script app/test.py and the React front end are not modelled.
