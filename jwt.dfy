/** JSON Web Tokens (RFC 7519) in compact JWS form, signed with HMAC SHA-256 (section 3.2 of
    RFC 7518), as python-jose's `jwt.encode` and `jwt.decode` treat them. A token is kept as
    its claims record and a symbolic signature; the string encoding (base64url segments,
    JSON) is not modelled. */
module Jwt {
  import opened Wrappers

  /** A claim's JSON value, as far as the claims checked here can hold one. */
  datatype ClaimValue = Text(text: string) | Number(number: int) | Null

  /** The claims set: a JSON object from claim names to values. */
  type Claims = map<string, ClaimValue>

  /** The HMAC over header and payload, kept symbolically: equal exactly when key, algorithm
      and payload are equal (HMAC's unforgeability, taken as given). */
  datatype Signature = Hmac(key: string, alg: string, payload: Claims)

  /** A bearer token as the client presents it: either it parses as a compact JWS, or it is
      anything else. */
  datatype Token = Garbled | Compact(alg: string, payload: Claims, signature: Signature)

  const HS256: string := "HS256"

  /** The reasons python-jose gives for raising `JWTError`; callers here never tell them
      apart. */
  datatype DecodeError = Malformed | DisallowedAlgorithm | BadSignature | Expired | InvalidClaims

  /** `jwt.encode(claims, key, algorithm="HS256")`. */
  function Encode(claims: Claims, key: string): Token {
    Compact(HS256, claims, Hmac(key, HS256, claims))
  }

  /** The `exp` claim (section 4.1.4 of RFC 7519), when present, is a number no earlier than
      `now`. A token without `exp` never expires. */
  predicate NotExpired(claims: Claims, now: int) {
    "exp" in claims ==> claims["exp"].Number? && now <= claims["exp"].number
  }

  /** The `sub` claim (section 4.1.2 of RFC 7519), when present, is a string. */
  predicate SubjectWellTyped(claims: Claims) {
    "sub" in claims ==> claims["sub"].Text?
  }

  /** `jwt.decode(token, key, algorithms="HS256")` at time `now` (seconds): parse, check the
      algorithm, check the signature, then validate `exp` (expired when `exp < now`, no
      leeway) and `sub`, in python-jose's order. */
  function Decode(token: Token, key: string, now: int): (r: Result<Claims, DecodeError>)
    ensures r.Ok? <==> token.Compact? && token == Encode(token.payload, key)
                       && NotExpired(token.payload, now) && SubjectWellTyped(token.payload)
    ensures r.Ok? ==> token == Encode(r.value, key)
  {
    match token
    case Garbled => Err(Malformed)
    case Compact(alg, payload, signature) =>
      if alg != HS256 then Err(DisallowedAlgorithm)
      else if signature != Hmac(key, alg, payload) then Err(BadSignature)
      else if "exp" in payload && !payload["exp"].Number? then Err(InvalidClaims)
      else if "exp" in payload && payload["exp"].number < now then Err(Expired)
      else if "sub" in payload && !payload["sub"].Text? then Err(InvalidClaims)
      else Ok(payload)
  }

  /** Round trip: a token this key signed decodes to its claims until `exp` has passed, and
      fails as expired after that. */
  lemma DecodeEncode(claims: Claims, key: string, now: int)
    requires "exp" in claims && claims["exp"].Number?
    requires SubjectWellTyped(claims)
    ensures now <= claims["exp"].number ==> Decode(Encode(claims, key), key, now) == Ok(claims)
    ensures now > claims["exp"].number ==> Decode(Encode(claims, key), key, now) == Err(Expired)
  {
  }

  /** A token signed under one key never decodes under another. */
  lemma DecodeOtherKey(claims: Claims, key: string, key': string, now: int)
    requires key != key'
    ensures Decode(Encode(claims, key), key', now) == Err(BadSignature)
  {
  }
}
