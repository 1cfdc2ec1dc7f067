/** The older handlers of app/routes.py, over the `Users` table of app/models.py (email
    unique as written): register checks email, username and password length in that order
    with an exact email comparison, and login looks the email up exactly. Both answer with
    the user and one legacy token. */
module LegacyRoutes {
  import opened Wrappers
  import opened Text
  import opened Seqs
  import opened Records
  import opened Storage
  import opened Jwt
  import AuthService
  import LegacyAuth
  import UserService
  import Hasher

  const EmailTaken: Failure := HttpError(400, "Email already registered")
  const UsernameTaken: Failure := HttpError(400, "Username already exits")
  const PasswordTooShort: Failure := HttpError(400, "Password has to be at least 6 charaters")
  const InvalidCredentials: Failure := HttpError(401, "Invalid credentials")
  const IntegrityError: Failure := InternalError("IntegrityError")

  /** The legacy `TokenResponse` body: the user and one token. */
  datatype LegacyTokenResponse = LegacyTokenResponse(user: UserView, token: Token)

  /** The checks of `register`, in order: an existing email equal as written, an existing
      username, a password shorter than six characters. */
  function RegisterCheck(users: seq<User>, username: string, email: string, password: string): (r: Option<Failure>)
    ensures r == Some(EmailTaken) <==> exists u :: u in users && u.email == email
    ensures r == Some(UsernameTaken) <==>
      (forall u :: u in users ==> u.email != email) && exists u :: u in users && u.username == username
    ensures r == Some(PasswordTooShort) <==>
      (forall u :: u in users ==> u.email != email && u.username != username)
      && |password| < UserService.MinPasswordLength
    ensures r.None? <==>
      (forall u :: u in users ==> u.email != email && u.username != username)
      && |password| >= UserService.MinPasswordLength
  {
    if First(users, EmailIs(email), UserMatches).Some? then Some(EmailTaken)
    else if First(users, Username(username), UserMatches).Some? then Some(UsernameTaken)
    else if |password| < UserService.MinPasswordLength then Some(PasswordTooShort)
    else None
  }

  /** The response for `u`: its `to_dict()` and a legacy token for its email. */
  function Respond(u: User, key: string, now: int): (r: LegacyTokenResponse)
    ensures r.user == UserToDict(u) && r.token.Compact?
    ensures r.token.payload.Keys == {"sub", "exp"} && r.token.payload["sub"] == Text(u.email)
  {
    LegacyTokenResponse(UserToDict(u), LegacyAuth.CreateToken(AuthService.SubjectClaims(u.email), key, now))
  }

  /** `register`: the checks, then one row with a fresh uuid `id` and the hashed password,
      then the response. A failed commit is not caught and leaves the table alone. */
  method Register(db: Database, username: string, email: string, password: string,
                  id: string, salt: Hasher.Salt, key: string, now: int)
    returns (r: Outcome<LegacyTokenResponse>)
    requires db.Valid()
    modifies db`users
    ensures db.Valid()
    ensures RegisterCheck(old(db.users), username, email, password).Some? ==>
      r == Err(RegisterCheck(old(db.users), username, email, password).value) && db.users == old(db.users)
    ensures RegisterCheck(old(db.users), username, email, password).None? ==>
      var u := UserService.NewUser(id, username, email, password, salt);
      && (r.Ok? <==> UserInsertable(old(db.users), u, db.emailRule))
      && (r.Ok? ==> db.users == old(db.users) + [u] && r.value == Respond(u, key, now))
      && (r.Err? ==> r.error == IntegrityError && db.users == old(db.users))
  {
    var check := RegisterCheck(db.users, username, email, password);
    if check.Some? {
      return Err(check.value);
    }
    var u := UserService.NewUser(id, username, email, password, salt);
    var ok := db.AddUser(u);
    if !ok {
      return Err(IntegrityError);
    }
    r := Ok(Respond(u, key, now));
  }

  /** `login`: the first user whose email equals the given one exactly, if the password
      verifies; an unknown email and a wrong password give the same 401. */
  function Login(users: seq<User>, email: string, password: string, key: string, now: int)
    : (r: Outcome<LegacyTokenResponse>)
    ensures r.Err? ==> r.error == InvalidCredentials
    ensures r.Ok? ==> exists u :: u in users && u.email == email && Hasher.VerifyPassword(password, u.hashedPassword)
                                  && r.value == Respond(u, key, now)
    ensures (forall u :: u in users ==> u.email != email) ==> r.Err?
  {
    match First(users, EmailIs(email), UserMatches)
    case None => Err(InvalidCredentials)
    case Some(u) =>
      if Hasher.VerifyPassword(password, u.hashedPassword) then Ok(Respond(u, key, now))
      else Err(InvalidCredentials)
  }

  // ---- properties ----------------------------------------------------------------------

  /** On the legacy table a user that passed the checks can only clash on its id. */
  lemma CheckedUserInsertable(users: seq<User>, username: string, email: string, password: string,
                              id: string, salt: Hasher.Salt)
    requires RegisterCheck(users, username, email, password).None?
    ensures UserInsertable(users, UserService.NewUser(id, username, email, password, salt), ExactUnique)
            <==> id !in UserIds(users)
  {
  }

  /** Register then login with the same email and password answers with the new user; the
      token in the answer opens the legacy `get_user_details` for that user. */
  lemma {:induction false} LoginAfterRegister(users: seq<User>, username: string, email: string, password: string,
                                              id: string, salt: Hasher.Salt, key: string, now: int)
    requires RegisterCheck(users, username, email, password).None?
    ensures var u := UserService.NewUser(id, username, email, password, salt);
      && Login(users + [u], email, password, key, now) == Ok(Respond(u, key, now))
      && LegacyAuth.GetUserDetails(Respond(u, key, now).token, users + [u], key, now) == Ok(u)
  {
    var u := UserService.NewUser(id, username, email, password, salt);
    FirstAppend(users, u, EmailIs(email), UserMatches);
    Hasher.VerifyHashed(password, salt);
    forall v | v in users + [u] && v.email == u.email ensures v == u {
      if v in users {
        assert false;
      }
    }
    LegacyAuth.TokenRoundTrip(u, users + [u], key, now, now);
  }

  /** Only the exact email logs in: a spelling that differs in case from every stored email
      is refused, even with the right password. */
  lemma LoginIsCaseSensitive(users: seq<User>, username: string, email: string, email': string, password: string,
                             id: string, salt: Hasher.Salt, key: string, now: int)
    requires RegisterCheck(users, username, email, password).None?
    requires email' != email && forall v :: v in users ==> v.email != email'
    ensures Login(users + [UserService.NewUser(id, username, email, password, salt)], email', password, key, now)
            == Err(InvalidCredentials)
  {
  }

  /** The two register paths disagree on case: with "A@x" stored, the legacy checks let
      "a@x" through, while `create_user` refuses it as an email already registered. */
  lemma CaseVariantOnlyLegacyAccepts(h: string)
    ensures var users := [User("1", "ann", "A@x", h)];
      && RegisterCheck(users, "bob", "a@x", "secret") == None
      && UserService.CreateUserCheck(users, "bob", "a@x", "secret") == Some(UserService.EmailTaken)
  {
    var users := [User("1", "ann", "A@x", h)];
    assert Lower("A@x") == "a@x" == Lower("a@x") by {
      assert Lower("A@x") == [LowerChar('A')] + Lower("@x");
      assert Lower("a@x") == [LowerChar('a')] + Lower("@x");
    }
    assert SameIgnoringCase(users[0].email, "a@x");
  }
}
