/** Bearer tokens and password hashing as app/auth/service.py provides them: access and
    refresh tokens that differ in lifetime and in a private `type` claim, one check that
    turns every failure into the same 401, and the lookup of the user an access token names.
    The clock is the parameter `now` (seconds); the configuration is a `Settings` value. */
module AuthService {
  import opened Wrappers
  import opened Seqs
  import opened Records
  import opened Jwt
  import Hasher

  /** The three settings the token code reads. */
  datatype Settings = Settings(secretKey: string, accessTokenExpiresMinutes: int, refreshTokenExpiresDays: int)

  /** The bounds the settings class declares: a secret of at least 32 characters and an
      access lifetime of 1 to 1440 minutes. The refresh lifetime has no declared bound. */
  predicate ValidSettings(s: Settings) {
    |s.secretKey| >= 32 && 1 <= s.accessTokenExpiresMinutes <= 1440
  }

  const DefaultAccessTokenExpiresMinutes: int := 30
  const DefaultRefreshTokenExpiresDays: int := 7

  const AccessType: string := "access"
  const RefreshType: string := "refresh"
  /** `verify_token`'s `token_type` when the caller names none. */
  const DefaultTokenType: string := AccessType

  /** The 401 `get_user_details` raises for a payload without `sub`; `verify_token` has
      already refused such a payload, so it is never raised. */
  const SubjectMissing: Failure := HttpError(401, "Invalid Token")

  /** The one rejection `verify_token` has. */
  const TokenInvalid: Failure := HttpError(401, "Token invalid or expired.")

  /** The module-level guard: a missing or empty secret stops the module from loading. */
  function LoadSecretKey(secret: Option<string>): (r: Outcome<string>)
    ensures r.Ok? <==> secret.Some? && secret.value != []
    ensures r.Ok? ==> r.value == secret.value
    ensures r.Err? ==> r.error == InternalError("SECRET_KEY environment variable is not set.")
  {
    if secret.None? || secret.value == [] then Err(InternalError("SECRET_KEY environment variable is not set."))
    else Ok(secret.value)
  }

  /** `timedelta(minutes=ACCESS_TOKEN_EXPIRES_MINUTES)` in seconds. */
  function AccessTokenLifetime(s: Settings): int {
    60 * s.accessTokenExpiresMinutes
  }

  /** `timedelta(days=refresh_token_expires_days)` in seconds. */
  function RefreshTokenLifetime(s: Settings): int {
    86400 * s.refreshTokenExpiresDays
  }

  /** A copy of the caller's claims with `exp` set and, when a kind is given, `type` set:
      `to_encode = data.copy(); to_encode.update(...)`. */
  function Stamp(data: Claims, exp: int, kind: Option<string>): (c: Claims)
    ensures c.Keys == data.Keys + {"exp"} + (if kind.Some? then {"type"} else {})
    ensures c["exp"] == Number(exp)
    ensures kind.Some? ==> c["type"] == Text(kind.value)
    ensures forall k :: k in data && k != "exp" && (kind.None? || k != "type") ==> c[k] == data[k]
  {
    var withExp := data["exp" := Number(exp)];
    if kind.Some? then withExp["type" := Text(kind.value)] else withExp
  }

  /** `create_access_token(data)` at time `now`. */
  function CreateAccessToken(data: Claims, s: Settings, now: int): (t: Token)
    ensures t.Compact? && t.alg == HS256 && t == Encode(t.payload, s.secretKey)
    ensures t.payload.Keys == data.Keys + {"exp", "type"}
    ensures t.payload["exp"] == Number(now + AccessTokenLifetime(s))
    ensures t.payload["type"] == Text(AccessType)
    ensures forall k :: k in data && k != "exp" && k != "type" ==> k in t.payload && t.payload[k] == data[k]
  {
    Encode(Stamp(data, now + AccessTokenLifetime(s), Some(AccessType)), s.secretKey)
  }

  /** `create_refresh_token(data)` at time `now`: the same, with the refresh lifetime and
      `type = "refresh"`. */
  function CreateRefreshToken(data: Claims, s: Settings, now: int): (t: Token)
    ensures t.Compact? && t.alg == HS256 && t == Encode(t.payload, s.secretKey)
    ensures t.payload.Keys == data.Keys + {"exp", "type"}
    ensures t.payload["exp"] == Number(now + RefreshTokenLifetime(s))
    ensures t.payload["type"] == Text(RefreshType)
    ensures forall k :: k in data && k != "exp" && k != "type" ==> k in t.payload && t.payload[k] == data[k]
  {
    Encode(Stamp(data, now + RefreshTokenLifetime(s), Some(RefreshType)), s.secretKey)
  }

  /** The claims a token carries for the user whose email is `email`: `{"sub": email}`. */
  function SubjectClaims(email: string): Claims {
    map["sub" := Text(email)]
  }

  /** `verify_token(token, token_type)` at time `now`: the payload when the token decodes,
      carries a `sub` and carries `type == token_type`; otherwise the one 401. */
  function VerifyToken(token: Token, tokenType: string, s: Settings, now: int): (r: Outcome<Claims>)
    ensures r.Err? ==> r.error == TokenInvalid
    ensures r.Ok? <==> Decode(token, s.secretKey, now).Ok?
                       && "sub" in token.payload
                       && "type" in token.payload && token.payload["type"] == Text(tokenType)
    ensures r.Ok? ==> token == Encode(r.value, s.secretKey) && NotExpired(r.value, now)
    ensures r.Ok? ==> "sub" in r.value && r.value["sub"].Text?
  {
    match Decode(token, s.secretKey, now)
    case Err(_) => Err(TokenInvalid)
    case Ok(payload) =>
      if "sub" !in payload || "type" !in payload || payload["type"] != Text(tokenType) then Err(TokenInvalid)
      else Ok(payload)
  }

  /** `get_user_details`: an access token, then the user whose stored email is exactly the
      token's `sub`. */
  function GetUserDetails(token: Token, users: seq<User>, s: Settings, now: int): (r: Outcome<User>)
    ensures r.Ok? <==> VerifyToken(token, AccessType, s, now).Ok?
                       && exists u :: u in users && Text(u.email) == token.payload["sub"]
    ensures r.Ok? ==> r.value in users && Text(r.value.email) == token.payload["sub"]
    ensures r.Err? ==> r.error == TokenInvalid || r.error == HttpError(401, "User not found")
    ensures VerifyToken(token, AccessType, s, now).Err? ==> r == Err(TokenInvalid)
    ensures VerifyToken(token, AccessType, s, now).Ok? && r.Err? ==> r.error == HttpError(401, "User not found")
  {
    match VerifyToken(token, AccessType, s, now)
    case Err(e) => Err(e)
    case Ok(payload) =>
      if "sub" !in payload then Err(SubjectMissing)
      else
        match First(users, EmailIs(payload["sub"].text), UserMatches)
        case None => Err(HttpError(401, "User not found"))
        case Some(u) => Ok(u)
  }

  // ---- properties ----------------------------------------------------------------------

  /** Access tokens live whole minutes, between one minute and one day under the declared
      bounds; refresh tokens live whole days, and at least as long as access tokens once the
      refresh setting is a day or more. */
  lemma TokenLifetimes(s: Settings)
    requires ValidSettings(s)
    ensures AccessTokenLifetime(s) % 60 == 0 && 60 <= AccessTokenLifetime(s) <= 86400
    ensures RefreshTokenLifetime(s) % 86400 == 0
    ensures s.refreshTokenExpiresDays >= 1 ==> RefreshTokenLifetime(s) >= AccessTokenLifetime(s)
  {
  }

  /** No token passes both checks: an access token is never accepted where a refresh token
      is required, nor the other way round. */
  lemma KindsAreSeparate(token: Token, s: Settings, now: int)
    ensures !(VerifyToken(token, AccessType, s, now).Ok? && VerifyToken(token, RefreshType, s, now).Ok?)
  {
  }

  /** Round trip for access tokens: one issued for `email` at `issued` verifies as an access
      token, with `sub == email`, until its lifetime is over, and never as a refresh token. */
  lemma {:induction false} AccessTokenRoundTrip(email: string, s: Settings, issued: int, now: int)
    ensures var t := CreateAccessToken(SubjectClaims(email), s, issued);
      && (now <= issued + AccessTokenLifetime(s) ==>
            VerifyToken(t, AccessType, s, now).Ok? && VerifyToken(t, AccessType, s, now).value["sub"] == Text(email))
      && (now > issued + AccessTokenLifetime(s) ==> VerifyToken(t, AccessType, s, now) == Err(TokenInvalid))
      && VerifyToken(t, RefreshType, s, now) == Err(TokenInvalid)
  {
    var c := Stamp(SubjectClaims(email), issued + AccessTokenLifetime(s), Some(AccessType));
    assert c["sub"] == Text(email);
    DecodeEncode(c, s.secretKey, now);
  }

  /** Round trip for refresh tokens, likewise. */
  lemma {:induction false} RefreshTokenRoundTrip(email: string, s: Settings, issued: int, now: int)
    ensures var t := CreateRefreshToken(SubjectClaims(email), s, issued);
      && (now <= issued + RefreshTokenLifetime(s) ==>
            VerifyToken(t, RefreshType, s, now).Ok? && VerifyToken(t, RefreshType, s, now).value["sub"] == Text(email))
      && (now > issued + RefreshTokenLifetime(s) ==> VerifyToken(t, RefreshType, s, now) == Err(TokenInvalid))
      && VerifyToken(t, AccessType, s, now) == Err(TokenInvalid)
  {
    var c := Stamp(SubjectClaims(email), issued + RefreshTokenLifetime(s), Some(RefreshType));
    assert c["sub"] == Text(email);
    DecodeEncode(c, s.secretKey, now);
  }

  /** A token signed with another secret is rejected with the same 401. */
  lemma ForeignTokenRejected(data: Claims, s: Settings, s': Settings, issued: int, now: int, tokenType: string)
    requires s.secretKey != s'.secretKey
    ensures VerifyToken(CreateAccessToken(data, s', issued), tokenType, s, now) == Err(TokenInvalid)
    ensures VerifyToken(CreateRefreshToken(data, s', issued), tokenType, s, now) == Err(TokenInvalid)
  {
  }

  /** `get_user_details` on a fresh access token for a stored user returns that user when
      stored emails are unique as written. */
  lemma {:induction false} UserDetailsOfOwnToken(u: User, users: seq<User>, s: Settings, issued: int, now: int)
    requires u in users
    requires forall v :: v in users && v.email == u.email ==> v == u
    requires issued <= now <= issued + AccessTokenLifetime(s)
    ensures GetUserDetails(CreateAccessToken(SubjectClaims(u.email), s, issued), users, s, now) == Ok(u)
  {
    AccessTokenRoundTrip(u.email, s, issued, now);
  }

  /** `verify_password(p, hash_password(p))`, and the stored hash is not the password when
      bcrypt reads all of it. */
  lemma PasswordRoundTrip(password: string, salt: Hasher.Salt)
    ensures Hasher.VerifyPassword(password, Hasher.HashPassword(password, salt))
    ensures |Hasher.Utf8(password)| <= Hasher.MaxKeyBytes ==> Hasher.HashPassword(password, salt) != password
  {
    Hasher.VerifyHashed(password, salt);
    Hasher.HashHidesPassword(password, salt, salt);
  }
}
