/** The handlers of app/backend/auth/routes.py that differ from app/auth/routes.py: register,
    which also stores an email-verification token for the new user and queues the email
    that carries it, and verify-email, which turns the validator's answer into a fixed
    response. Login and refresh there are the `AuthRoutes` ones. */
module BackendAuthRoutes {
  import opened Wrappers
  import opened Text
  import opened Records
  import opened Storage
  import opened AuthService
  import opened AuthRoutes
  import UserService
  import Hasher

  const RegistrationFailed: Failure := HttpError(500, "Registration failed. Try again.")
  const EmailVerified: string := "Email verified successfully!"
  const VerificationRejected: string := "Invalid or expired verification token"
  const VerificationErrorPrefix: string := "Error during verification "

  /** The background task `send_verification_email(email, token, username)`; sending is
      left to the caller of the handler, which gets the queued tasks back. */
  datatype EmailTask = SendVerificationEmail(email: string, token: string, username: string)

  /** The `EmailVerificationResponse` body. */
  datatype VerificationResponse = VerificationResponse(success: bool, message: string)

  /** The two `except` clauses of `register`: an `HTTPException` is raised again as it is,
      anything else becomes the 500. */
  function RegisterFailure(f: Failure): (r: Failure)
    ensures r.HttpError?
    ensures f.HttpError? ==> r == f
    ensures f.InternalError? ==> r == RegistrationFailed
  {
    match f
    case HttpError(_, _) => f
    case InternalError(_) => RegistrationFailed
  }

  /** The verification token row `register` stores for the new user: issued `now`, not
      yet used. Its id, token string and expiry come from `create_verification_token`. */
  function NewVerificationToken(tokenId: string, userId: string, tokenString: string, now: int, expiredAt: int)
    : VerificationToken
  {
    VerificationToken(tokenId, userId, tokenString, now, None, expiredAt)
  }

  /** `register`: `create_user`, then the verification token for the new user's id, then
      the queued email with (email, token, username), then the token pair. A failure of
      `create_user` leaves both tables alone; a failed token insert comes after the user
      row was committed, so that row stays. */
  method Register(db: Database, username: string, email: string, password: string,
                  id: string, salt: Hasher.Salt, tokenId: string, tokenString: string, expiredAt: int,
                  s: Settings, now: int)
    returns (r: Outcome<TokenResponse>, tasks: seq<EmailTask>)
    requires db.Valid()
    modifies db`users, db`verificationTokens
    ensures db.Valid()
    ensures r.Err? ==> tasks == []
    ensures r.Err? ==> r.error in {UserService.EmailTaken, UserService.UsernameTaken,
                                   UserService.PasswordTooShort, RegistrationFailed}
    ensures UserService.CreateUserCheck(old(db.users), username, email, password).Some? ==>
      && r == Err(UserService.CreateUserCheck(old(db.users), username, email, password).value)
      && db.users == old(db.users)
      && db.verificationTokens == old(db.verificationTokens)
    ensures UserService.CreateUserCheck(old(db.users), username, email, password).None?
            && id in UserIds(old(db.users)) ==>
      r == Err(RegistrationFailed) && db.users == old(db.users) && db.verificationTokens == old(db.verificationTokens)
    ensures UserService.CreateUserCheck(old(db.users), username, email, password).None?
            && id !in UserIds(old(db.users)) ==>
      var u := UserService.NewUser(id, username, email, password, salt);
      var t := NewVerificationToken(tokenId, id, tokenString, now, expiredAt);
      && db.users == old(db.users) + [u]
      && (TokenInsertable(old(db.verificationTokens), t) ==>
            && r == Ok(IssueTokens(u, s, now))
            && db.verificationTokens == old(db.verificationTokens) + [t]
            && tasks == [SendVerificationEmail(email, tokenString, username)])
      && (!TokenInsertable(old(db.verificationTokens), t) ==>
            r == Err(RegistrationFailed) && db.verificationTokens == old(db.verificationTokens))
  {
    var created := UserService.CreateUser(db, username, email, password, id, salt);
    if created.Err? {
      return Err(RegisterFailure(created.error)), [];
    }
    var u := created.value;
    var t := NewVerificationToken(tokenId, u.id, tokenString, now, expiredAt);
    var ok := db.AddVerificationToken(t);
    if !ok {
      return Err(RegistrationFailed), [];
    }
    tasks := [SendVerificationEmail(u.email, t.token, u.username)];
    r := Ok(IssueTokens(u, s, now));
  }

  /** `str(e)` of what the validator raised: an `HTTPException` prints as
      "<status>: <detail>", any other exception as its message. */
  function ExceptionText(f: Failure): (r: string)
    ensures f.HttpError? ==> r == NatToString(f.status) + ": " + f.detail
    ensures f.HttpError? ==> |r| > |f.detail| && r[|r| - |f.detail|..] == f.detail
    ensures f.InternalError? ==> r == f.message
  {
    match f
    case HttpError(status, detail) => NatToString(status) + ": " + detail
    case InternalError(message) => message
  }

  /** `verify_email`, given what `validate_email_token` returned (`Ok`) or raised (`Err`):
      true and false become the two fixed responses, and anything raised becomes a 500
      whose detail names the cause. */
  function VerifyEmail(validated: Outcome<bool>): (r: Outcome<VerificationResponse>)
    ensures r.Ok? <==> validated.Ok?
    ensures r.Ok? ==> r.value.success == validated.value
    ensures r.Ok? ==> r.value.message == if validated.value then EmailVerified else VerificationRejected
    ensures r.Err? ==> r.error.HttpError? && r.error.status == 500
    ensures r.Err? ==> r.error.detail == VerificationErrorPrefix + ExceptionText(validated.error)
  {
    match validated
    case Ok(valid) =>
      if valid then Ok(VerificationResponse(true, EmailVerified))
      else Ok(VerificationResponse(false, VerificationRejected))
    case Err(e) => Err(HttpError(500, VerificationErrorPrefix + ExceptionText(e)))
  }

  // ---- properties ----------------------------------------------------------------------

  /** A client reading only the message of a verify-email response knows whether it
      succeeded, and a 500 carries the validator's own message at its end. */
  lemma VerifyEmailAnswers(a: Outcome<bool>, b: Outcome<bool>)
    requires VerifyEmail(a).Ok? && VerifyEmail(b).Ok?
    ensures VerifyEmail(a).value.message == VerifyEmail(b).value.message <==> a == b
  {
    assert EmailVerified[0] != VerificationRejected[0];
  }

  /** The 500 of verify-email ends with the detail of the `HTTPException` that caused it. */
  lemma VerifyEmailKeepsCause(status: nat, detail: string)
    ensures var r := VerifyEmail(Err(HttpError(status, detail)));
      && r.Err? && |r.error.detail| >= |detail|
      && r.error.detail[|r.error.detail| - |detail|..] == detail
  {
    var text := ExceptionText(HttpError(status, detail));
    var full := VerificationErrorPrefix + text;
    assert full[|full| - |detail|..] == text[|text| - |detail|..];
  }
}
