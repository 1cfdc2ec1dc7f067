/** The gateway handlers of app/auth/routes.py; app/users/routes.py and the login and
    refresh handlers of app/backend/auth/routes.py are the same code. Register and login
    hand back the user and an access/refresh pair whose `sub` is the user's stored email;
    refresh takes only a refresh token, rotates both tokens, and answers every failure with
    the same 401. */
module AuthRoutes {
  import opened Wrappers
  import opened Text
  import opened Seqs
  import opened Records
  import opened Jwt
  import opened AuthService
  import opened Storage
  import UserService
  import Hasher

  /** The `TokenResponse` body. */
  datatype TokenResponse = TokenResponse(user: UserView, token: Token, refreshToken: Token)

  /** The response for `u` at time `now`: `to_dict()` and a fresh pair with `sub = u.email`. */
  function IssueTokens(u: User, s: Settings, now: int): (r: TokenResponse)
    ensures r.user == UserToDict(u)
    ensures r.token.Compact? && r.refreshToken.Compact?
    ensures r.token.payload.Keys == r.refreshToken.payload.Keys == {"sub", "exp", "type"}
    ensures r.token.payload["sub"] == Text(u.email) && r.token.payload["type"] == Text(AccessType)
    ensures r.refreshToken.payload["sub"] == Text(u.email)
    ensures r.refreshToken.payload["type"] == Text(RefreshType)
  {
    TokenResponse(UserToDict(u), CreateAccessToken(SubjectClaims(u.email), s, now),
                  CreateRefreshToken(SubjectClaims(u.email), s, now))
  }

  /** `register`: `create_user`, whose rejections reach the client unchanged and before any
      token exists, then the tokens for the new row. */
  method Register(db: Database, username: string, email: string, password: string,
                  id: string, salt: Hasher.Salt, s: Settings, now: int)
    returns (r: Outcome<TokenResponse>)
    requires db.Valid()
    modifies db`users
    ensures db.Valid()
    ensures UserService.CreateUserCheck(old(db.users), username, email, password).Some? ==>
      r == Err(UserService.CreateUserCheck(old(db.users), username, email, password).value)
    ensures r.Ok? ==>
      var u := UserService.NewUser(id, username, email, password, salt);
      db.users == old(db.users) + [u] && r.value == IssueTokens(u, s, now)
    ensures UserService.CreateUserCheck(old(db.users), username, email, password).None? ==>
      (r.Ok? <==> id !in UserIds(old(db.users)))
    ensures r.Err? ==> db.users == old(db.users)
  {
    var created := UserService.CreateUser(db, username, email, password, id, salt);
    if created.Err? {
      return Err(created.error);
    }
    r := Ok(IssueTokens(created.value, s, now));
  }

  /** `login`: `authenticate_user`, then the tokens for the user it returns. */
  function Login(users: seq<User>, email: string, password: string, s: Settings, now: int): (r: Outcome<TokenResponse>)
    ensures r.Err? ==> r.error == UserService.InvalidCredentials
    ensures r.Ok? ==> exists u :: u in users && SameIgnoringCase(u.email, email)
                                 && Hasher.VerifyPassword(password, u.hashedPassword)
                                 && r.value == IssueTokens(u, s, now)
    ensures r.Ok? <==> UserService.AuthenticateUser(users, email, password).Ok?
  {
    match UserService.AuthenticateUser(users, email, password)
    case Err(e) => Err(e)
    case Ok(u) => Ok(IssueTokens(u, s, now))
  }

  /** The body of the `try` in `get_refresh_token`: a refresh token, the user whose email
      is exactly its `sub` (404 if none), and a new pair for that `sub`. */
  function RefreshAttempt(token: Token, users: seq<User>, s: Settings, now: int): (r: Outcome<TokenResponse>)
    ensures r.Err? ==> r.error.HttpError?
  {
    match VerifyToken(token, RefreshType, s, now)
    case Err(e) => Err(e)
    case Ok(payload) =>
      var email := payload["sub"].text;
      match First(users, EmailIs(email), UserMatches)
      case None => Err(HttpError(404, "User not found"))
      case Some(u) =>
        Ok(TokenResponse(UserToDict(u), CreateAccessToken(SubjectClaims(email), s, now),
                         CreateRefreshToken(SubjectClaims(email), s, now)))
  }

  /** `get_refresh_token`: the attempt, with every `HTTPException` it raises rewritten to
      the 401 "Token invalid or expired.". */
  function GetRefreshToken(token: Token, users: seq<User>, s: Settings, now: int): (r: Outcome<TokenResponse>)
    ensures r.Err? ==> r.error == TokenInvalid
    ensures r.Ok? <==> VerifyToken(token, RefreshType, s, now).Ok?
                       && exists u :: u in users && Text(u.email) == token.payload["sub"]
    ensures r.Ok? ==> exists u :: u in users && Text(u.email) == token.payload["sub"]
                                 && r.value == IssueTokens(u, s, now)
  {
    match RefreshAttempt(token, users, s, now)
    case Err(HttpError(_, _)) => Err(TokenInvalid)
    case Err(e) => Err(e)
    case Ok(v) => Ok(v)
  }

  // ---- properties ----------------------------------------------------------------------

  /** The pair a response carries works as issued: the access token passes the access check
      and the refresh token the refresh check, both for the user's email, for as long as
      each lives; neither passes the other check. */
  lemma {:induction false} IssuedTokensVerify(u: User, s: Settings, issued: int, now: int)
    ensures var r := IssueTokens(u, s, issued);
      && (now <= issued + AccessTokenLifetime(s) ==>
            VerifyToken(r.token, AccessType, s, now).Ok? && VerifyToken(r.token, AccessType, s, now).value["sub"] == Text(u.email))
      && (now <= issued + RefreshTokenLifetime(s) ==>
            VerifyToken(r.refreshToken, RefreshType, s, now).Ok?
            && VerifyToken(r.refreshToken, RefreshType, s, now).value["sub"] == Text(u.email))
      && VerifyToken(r.token, RefreshType, s, now).Err?
      && VerifyToken(r.refreshToken, AccessType, s, now).Err?
  {
    AccessTokenRoundTrip(u.email, s, issued, now);
    RefreshTokenRoundTrip(u.email, s, issued, now);
  }

  /** Refresh rotates: a live refresh token of a stored user gives a response for that
      user whose refresh token can be refreshed again. */
  lemma {:induction false} RefreshRotates(u: User, users: seq<User>, s: Settings, issued: int, now: int, later: int)
    requires u in users
    requires forall v :: v in users && v.email == u.email ==> v == u
    requires issued <= now <= issued + RefreshTokenLifetime(s)
    requires now <= later <= now + RefreshTokenLifetime(s)
    ensures var first := GetRefreshToken(IssueTokens(u, s, issued).refreshToken, users, s, now);
      && first == Ok(IssueTokens(u, s, now))
      && GetRefreshToken(first.value.refreshToken, users, s, later) == Ok(IssueTokens(u, s, later))
  {
    RefreshTokenRoundTrip(u.email, s, issued, now);
    RefreshTokenRoundTrip(u.email, s, now, later);
  }

  /** An access token never refreshes, and neither does the token of a user who is gone:
      both end in the same 401. */
  lemma {:induction false} RefreshRefusals(u: User, users: seq<User>, s: Settings, issued: int, now: int)
    ensures GetRefreshToken(IssueTokens(u, s, issued).token, users, s, now) == Err(TokenInvalid)
    ensures (forall v :: v in users ==> v.email != u.email) ==>
      GetRefreshToken(IssueTokens(u, s, issued).refreshToken, users, s, now) == Err(TokenInvalid)
  {
    AccessTokenRoundTrip(u.email, s, issued, now);
    RefreshTokenRoundTrip(u.email, s, issued, now);
  }

  /** Register then login: the login with any case variant of the email, and the password,
      answers with the registered user and tokens for its email as stored. */
  lemma {:induction false} LoginAfterRegister(users: seq<User>, username: string, email: string, email': string,
                                              password: string, id: string, salt: Hasher.Salt, s: Settings, now: int)
    requires UserService.CreateUserCheck(users, username, email, password).None?
    requires SameIgnoringCase(email', email)
    ensures var u := UserService.NewUser(id, username, email, password, salt);
      Login(users + [u], email', password, s, now) == Ok(IssueTokens(u, s, now))
  {
    UserService.LoginAfterRegister(users, username, email, email', password, id, salt);
  }
}
