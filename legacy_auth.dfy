/** The older token code of app/auth.py: one kind of token, thirty minutes long, with no
    `type` claim, and a user lookup that answers every token problem with 401 "Invalid
    Token". Its secret comes from the environment through the same guard as the newer code. */
module LegacyAuth {
  import opened Wrappers
  import opened Seqs
  import opened Records
  import opened Jwt
  import AuthService

  const AccessTokenExpiresMinutes: int := 30

  const InvalidToken: Failure := HttpError(401, "Invalid Token")
  const UserNotFound: Failure := HttpError(401, "User not found")

  /** `create_token(data)` at time `now`, signed with `key`: the caller's claims plus an
      `exp` thirty minutes on, and nothing else. */
  function CreateToken(data: Claims, key: string, now: int): (t: Token)
    ensures t.Compact? && t.alg == HS256 && t == Encode(t.payload, key)
    ensures t.payload.Keys == data.Keys + {"exp"}
    ensures t.payload["exp"] == Number(now + 60 * AccessTokenExpiresMinutes)
    ensures forall k :: k in data && k != "exp" ==> t.payload[k] == data[k]
  {
    Encode(AuthService.Stamp(data, now + 60 * AccessTokenExpiresMinutes, None), key)
  }

  /** `get_user_details` of app/auth.py: decode (any failure is 401 "Invalid Token"), require
      a `sub` (else the same 401), then the user whose email is exactly `sub`. */
  function GetUserDetails(token: Token, users: seq<User>, key: string, now: int): (r: Outcome<User>)
    ensures r.Ok? <==> Decode(token, key, now).Ok? && "sub" in token.payload
                       && exists u :: u in users && Text(u.email) == token.payload["sub"]
    ensures r.Ok? ==> r.value in users && Text(r.value.email) == token.payload["sub"]
    ensures r.Err? ==> r.error == InvalidToken || r.error == UserNotFound
    ensures r.Err? && Decode(token, key, now).Ok? && "sub" in token.payload ==> r.error == UserNotFound
    ensures Decode(token, key, now).Err? ==> r == Err(InvalidToken)
    ensures Decode(token, key, now).Ok? && "sub" !in token.payload ==> r == Err(InvalidToken)
  {
    match Decode(token, key, now)
    case Err(_) => Err(InvalidToken)
    case Ok(payload) =>
      if "sub" !in payload then Err(InvalidToken)
      else
        match First(users, EmailIs(payload["sub"].text), UserMatches)
        case None => Err(UserNotFound)
        case Some(u) => Ok(u)
  }

  /** A legacy token for `email` opens the legacy lookup for thirty minutes and no longer. */
  lemma {:induction false} TokenRoundTrip(u: User, users: seq<User>, key: string, issued: int, now: int)
    requires u in users
    requires forall v :: v in users && v.email == u.email ==> v == u
    ensures now <= issued + 60 * AccessTokenExpiresMinutes ==>
      GetUserDetails(CreateToken(AuthService.SubjectClaims(u.email), key, issued), users, key, now) == Ok(u)
    ensures now > issued + 60 * AccessTokenExpiresMinutes ==>
      GetUserDetails(CreateToken(AuthService.SubjectClaims(u.email), key, issued), users, key, now) == Err(InvalidToken)
  {
    var c := AuthService.Stamp(AuthService.SubjectClaims(u.email), issued + 60 * AccessTokenExpiresMinutes, None);
    assert c["sub"] == Text(u.email);
    DecodeEncode(c, key, now);
  }

  /** Having no `type` claim, the legacy lookup does not tell token kinds apart: a refresh
      token of the newer code, signed with the same secret, opens it too. The newer
      `get_user_details` refuses that token. */
  lemma {:induction false} LegacyAcceptsRefreshToken(u: User, users: seq<User>, s: AuthService.Settings, issued: int, now: int)
    requires u in users
    requires forall v :: v in users && v.email == u.email ==> v == u
    requires issued <= now <= issued + AuthService.RefreshTokenLifetime(s)
    ensures var t := AuthService.CreateRefreshToken(AuthService.SubjectClaims(u.email), s, issued);
      GetUserDetails(t, users, s.secretKey, now) == Ok(u)
      && AuthService.GetUserDetails(t, users, s, now) == Err(AuthService.TokenInvalid)
  {
    AuthService.RefreshTokenRoundTrip(u.email, s, issued, now);
  }
}
