/** `UserService` of app/users/service.py (app/service.py holds the same class, line for
    line): the registration checks in their fixed order, the insert of the new user, and
    login by case-insensitive email plus password. */
module UserService {
  import opened Wrappers
  import opened Text
  import opened Seqs
  import opened Records
  import opened Storage
  import Hasher

  const MinPasswordLength: nat := 6

  const EmailTaken: Failure := HttpError(400, "Email already registered")
  const UsernameTaken: Failure := HttpError(400, "Username already exists")
  const PasswordTooShort: Failure := HttpError(400, "Password has to be at least 6 characters")
  const InvalidCredentials: Failure := HttpError(401, "Invalid credentials")
  /** What a failed commit of the new row surfaces as. */
  const IntegrityError: Failure := InternalError("IntegrityError")

  /** `check_email_exists(email)`: some stored email equals `email` ignoring case. */
  function CheckEmailExists(users: seq<User>, email: string): (r: bool)
    ensures r <==> exists u :: u in users && SameIgnoringCase(u.email, email)
  {
    First(users, EmailLowerIs(email), UserMatches).Some?
  }

  /** `check_username_exists(username)`: exact, case-sensitive comparison. */
  function CheckUsernameExists(users: seq<User>, username: string): (r: bool)
    ensures r <==> exists u :: u in users && u.username == username
  {
    First(users, Username(username), UserMatches).Some?
  }

  /** `validate_password(password)`: at least six characters. */
  function ValidatePassword(password: string): (r: Result<(), Failure>)
    ensures r.Err? <==> |password| < MinPasswordLength
    ensures r.Err? ==> r.error == PasswordTooShort
  {
    if |password| < MinPasswordLength then Err(PasswordTooShort) else Ok(())
  }

  /** The checks `create_user` makes before it inserts, in their order: email (with the
      email lower-cased first), username, password. The result is the first check that
      fails, if any. */
  function CreateUserCheck(users: seq<User>, username: string, email: string, password: string): (r: Option<Failure>)
    ensures r == Some(EmailTaken) <==> exists u :: u in users && SameIgnoringCase(u.email, email)
    ensures r == Some(UsernameTaken) <==>
      (forall u :: u in users ==> !SameIgnoringCase(u.email, email))
      && exists u :: u in users && u.username == username
    ensures r == Some(PasswordTooShort) <==>
      (forall u :: u in users ==> !SameIgnoringCase(u.email, email) && u.username != username)
      && |password| < MinPasswordLength
    ensures r.None? <==>
      (forall u :: u in users ==> !SameIgnoringCase(u.email, email) && u.username != username)
      && |password| >= MinPasswordLength
  {
    LowerIdempotent(email);
    if CheckEmailExists(users, Lower(email)) then Some(EmailTaken)
    else if CheckUsernameExists(users, username) then Some(UsernameTaken)
    else match ValidatePassword(password)
      case Err(f) => Some(f)
      case Ok(_) => None
  }

  /** The row `create_user` builds: the email as given (not lower-cased), the bcrypt hash of
      the password; `id` is the uuid the column default draws. */
  function NewUser(id: string, username: string, email: string, password: string, salt: Hasher.Salt): User {
    User(id, username, email, Hasher.HashPassword(password, salt))
  }

  /** A user that passed the registration checks fits the email and username indexes, so
      the insert can fail only on a reused id. */
  lemma CheckedUserInsertable(users: seq<User>, u: User, rule: EmailRule)
    requires forall v :: v in users ==> !SameIgnoringCase(v.email, u.email) && v.username != u.username
    ensures UserInsertable(users, u, rule) <==> forall v :: v in users ==> v.id != u.id
  {
  }

  /** `create_user`: the checks, then the insert of one row. Every rejection leaves the
      table as it was. */
  method CreateUser(db: Database, username: string, email: string, password: string, id: string, salt: Hasher.Salt)
    returns (r: Outcome<User>)
    requires db.Valid()
    modifies db`users
    ensures db.Valid()
    ensures CreateUserCheck(old(db.users), username, email, password).Some? ==>
      r == Err(CreateUserCheck(old(db.users), username, email, password).value)
    ensures r.Ok? ==>
      && CreateUserCheck(old(db.users), username, email, password).None?
      && r.value == NewUser(id, username, email, password, salt)
      && db.users == old(db.users) + [r.value]
    ensures CreateUserCheck(old(db.users), username, email, password).None? ==>
      (r.Ok? <==> id !in UserIds(old(db.users)))
    ensures r.Err? ==> db.users == old(db.users)
    ensures r.Err? ==> r.error in {EmailTaken, UsernameTaken, PasswordTooShort, IntegrityError}
    ensures CreateUserCheck(old(db.users), username, email, password).None? && r.Err? ==> r.error == IntegrityError
  {
    var check := CreateUserCheck(db.users, username, email, password);
    if check.Some? {
      return Err(check.value);
    }
    var u := NewUser(id, username, email, password, salt);
    CheckedUserInsertable(db.users, u, db.emailRule);
    var ok := db.AddUser(u);
    if ok {
      r := Ok(u);
    } else {
      assert exists v :: v in old(db.users) && v.id == id;
      r := Err(IntegrityError);
    }
  }

  /** `authenticate_user`: the first user whose email equals the given one ignoring case,
      if the password verifies against its hash; an unknown email and a wrong password give
      the same 401. */
  function AuthenticateUser(users: seq<User>, email: string, password: string): (r: Outcome<User>)
    ensures r.Err? ==> r.error == InvalidCredentials
    ensures r.Ok? ==> r.value in users && SameIgnoringCase(r.value.email, email)
                      && Hasher.VerifyPassword(password, r.value.hashedPassword)
    ensures (forall u :: u in users ==> !SameIgnoringCase(u.email, email)) ==> r.Err?
  {
    match First(users, EmailLowerIs(email), UserMatches)
    case None => Err(InvalidCredentials)
    case Some(u) => if Hasher.VerifyPassword(password, u.hashedPassword) then Ok(u) else Err(InvalidCredentials)
  }

  /** `get_user_by_email`: case-insensitive. */
  function GetUserByEmail(users: seq<User>, email: string): (r: Option<User>)
    ensures r.Some? ==> r.value in users && SameIgnoringCase(r.value.email, email)
    ensures r.None? <==> forall u :: u in users ==> !SameIgnoringCase(u.email, email)
  {
    First(users, EmailLowerIs(email), UserMatches)
  }

  /** `get_user_by_id`: exact. */
  function GetUserById(users: seq<User>, id: string): (r: Option<User>)
    ensures r.Some? ==> r.value in users && r.value.id == id
    ensures r.None? <==> id !in UserIds(users)
  {
    First(users, UserId(id), UserMatches)
  }

  // ---- properties ----------------------------------------------------------------------

  /** With emails unique ignoring case (the table's index), login succeeds exactly when some
      stored user has the email, ignoring case, and the password verifies against its hash. */
  lemma AuthenticateIff(users: seq<User>, email: string, password: string)
    requires DistinctBy(users, LowerEmailKey)
    ensures AuthenticateUser(users, email, password).Ok? <==>
      exists u :: u in users && SameIgnoringCase(u.email, email) && Hasher.VerifyPassword(password, u.hashedPassword)
  {
    var r := AuthenticateUser(users, email, password);
    if u :| u in users && SameIgnoringCase(u.email, email) && Hasher.VerifyPassword(password, u.hashedPassword) {
      var f := First(users, EmailLowerIs(email), UserMatches);
      assert f.Some?;
      assert LowerEmailKey(f.value) == LowerEmailKey(u);
      DistinctKeySame(users, f.value, u, LowerEmailKey);
    }
  }

  /** Registering and then logging in: once `create_user(username, e, p)` has added its row,
      `authenticate_user` with any spelling of `e` that differs only in case, and with `p`,
      returns that row. */
  lemma {:induction false} LoginAfterRegister(users: seq<User>, username: string, email: string, email': string,
                                              password: string, id: string, salt: Hasher.Salt)
    requires CreateUserCheck(users, username, email, password).None?
    requires SameIgnoringCase(email', email)
    ensures var u := NewUser(id, username, email, password, salt);
      AuthenticateUser(users + [u], email', password) == Ok(u)
  {
    var u := NewUser(id, username, email, password, salt);
    FirstAppend(users, u, EmailLowerIs(email'), UserMatches);
    assert First(users, EmailLowerIs(email'), UserMatches).None?;
    Hasher.VerifyHashed(password, salt);
  }

  /** A wrong password never logs in, whatever the email, when it differs from the right
      one within the 72 bytes bcrypt reads. */
  lemma WrongPasswordRejected(users: seq<User>, u: User, email: string, password: string, other: string, salt: Hasher.Salt)
    requires DistinctBy(users, LowerEmailKey)
    requires u in users && u.hashedPassword == Hasher.HashPassword(password, salt)
    requires SameIgnoringCase(u.email, email)
    requires Hasher.BcryptKey(other) != Hasher.BcryptKey(password)
    ensures AuthenticateUser(users, email, other) == Err(InvalidCredentials)
  {
    var f := First(users, EmailLowerIs(email), UserMatches);
    assert LowerEmailKey(f.value) == LowerEmailKey(u);
    DistinctKeySame(users, f.value, u, LowerEmailKey);
    Hasher.VerifyRejectsOther(password, other, salt);
  }
}
