/** Bearer-token handling: the `Authorization` header check of `get_current_admin`,
    the claims that `create_jwt` issues, and the expiry check of `decode_jwt`.
    Signing and signature verification are library cryptography and stay abstract:
    `verify` maps a token string to the claims it was signed with, or to `None`
    when the signature or the encoding is invalid. */
module Tokens {
  import opened Common

  /** `JWT_EXP` when the environment does not set `JWT_EXP_SECONDS`. */
  const DefaultJwtExpSeconds := 3600

  /** The scheme an `Authorization` header must start with. */
  const BearerPrefix := "Bearer "

  /** The claims the login handler puts in a token, before the expiry is added. */
  datatype Payload = Payload(adminId: Id, orgId: Option<Id>, email: string)

  /** A token's full claim set: the payload plus the integer `exp` claim. */
  datatype Claims = Claims(payload: Payload, exp: int)

  /** `create_jwt`: a copy of the payload with `exp` set to the issue time plus the
      configured lifetime. `now` is `int(time.time())`. */
  function CreateJwt(payload: Payload, now: int, ttl: int): (c: Claims)
  {
    Claims(payload, now + ttl)
  }

  /** The library's expiry rule: a token is expired once the clock has reached `exp`.
      With `exp` an integer, comparing against the whole seconds of the clock gives
      the same answer as comparing against the exact time. */
  predicate Expired(c: Claims, now: int)
  {
    c.exp <= now
  }

  /** `decode_jwt`: reject a token whose signature or format is bad, then one that has
      expired; both with status 401. */
  function DecodeJwt(token: string, now: int, verify: string -> Option<Claims>): (r: Outcome<Claims>)
    ensures r.Ok? <==> verify(token).Some? && !Expired(verify(token).value, now)
    ensures r.Ok? ==> r.value == verify(token).value
    ensures verify(token).None? ==> r == Err(401, "Invalid token")
    ensures verify(token).Some? && Expired(verify(token).value, now) ==> r == Err(401, "Token expired")
  {
    match verify(token)
    case None => Err(401, "Invalid token")
    case Some(c) => if Expired(c, now) then Err(401, "Token expired") else Ok(c)
  }

  /** The header check of `get_current_admin`: a header that does not start with
      `"Bearer "` is refused with 401; otherwise the token is what follows the first
      space, which is everything after the prefix. */
  function BearerToken(authorization: string): (r: Outcome<string>)
    ensures r.Ok? <==> StartsWith(authorization, BearerPrefix)
    ensures r.Ok? ==> r.value == authorization[|BearerPrefix|..]
    ensures r.Err? ==> r == Err(401, "Invalid auth header")
  {
    if !StartsWith(authorization, BearerPrefix) then Err(401, "Invalid auth header")
    else
      assert authorization[6] == ' ';
      match IndexOf(authorization, ' ')
      case Some(i) =>
        Ok(authorization[i + 1..])
  }

  /** `get_current_admin`: header check, then token decoding. */
  function GetCurrentAdmin(authorization: string, now: int, verify: string -> Option<Claims>): (r: Outcome<Claims>)
    ensures r.Err? ==> r.status == 401
    ensures r.Ok? <==> StartsWith(authorization, BearerPrefix) && DecodeJwt(authorization[|BearerPrefix|..], now, verify).Ok?
    ensures r.Ok? ==> r.value == verify(authorization[|BearerPrefix|..]).value
  {
    match BearerToken(authorization)
    case Err(status, detail) => Err(status, detail)
    case Ok(token) => DecodeJwt(token, now, verify)
  }
}

/** Properties of token issue and acceptance. */
module TokenProperties {
  import opened Common
  import opened Tokens

  /** Everything the caller put in the payload comes back unchanged from the issued
      claims, and the expiry lies exactly `ttl` seconds after the issue time. */
  lemma IssuedClaims(payload: Payload, now: int, ttl: int)
    ensures CreateJwt(payload, now, ttl).payload == payload
    ensures CreateJwt(payload, now, ttl).exp - now == ttl
  {
  }

  /** A header carrying a token issued at `issuedAt` with lifetime `ttl` is accepted,
      with exactly the issued claims, before `issuedAt + ttl` and refused as expired
      from then on. */
  lemma {:induction false} IssuedTokenLifetime(token: string, payload: Payload, issuedAt: int, ttl: int,
                                               now: int, verify: string -> Option<Claims>)
    requires verify(token) == Some(CreateJwt(payload, issuedAt, ttl))
    ensures GetCurrentAdmin(BearerPrefix + token, now, verify) ==
              if now < issuedAt + ttl then Ok(CreateJwt(payload, issuedAt, ttl))
              else Err(401, "Token expired")
  {
    var h := BearerPrefix + token;
    assert h[..|BearerPrefix|] == BearerPrefix;
    assert h[|BearerPrefix|..] == token;
  }

  /** With the default lifetime, a token issued at `issuedAt` is still accepted in its
      last second, `issuedAt + 3599`, and expired from `issuedAt + 3600` on. */
  lemma DefaultTokenLifetime(token: string, payload: Payload, issuedAt: int, verify: string -> Option<Claims>)
    requires verify(token) == Some(CreateJwt(payload, issuedAt, DefaultJwtExpSeconds))
    ensures GetCurrentAdmin(BearerPrefix + token, issuedAt + 3599, verify) ==
              Ok(CreateJwt(payload, issuedAt, DefaultJwtExpSeconds))
    ensures GetCurrentAdmin(BearerPrefix + token, issuedAt + 3600, verify) == Err(401, "Token expired")
  {
    IssuedTokenLifetime(token, payload, issuedAt, DefaultJwtExpSeconds, issuedAt + 3599, verify);
    IssuedTokenLifetime(token, payload, issuedAt, DefaultJwtExpSeconds, issuedAt + 3600, verify);
  }

  /** A header without the bearer scheme is refused before any token is looked at. */
  lemma MissingSchemeRefused(authorization: string, now: int, verify: string -> Option<Claims>)
    requires !StartsWith(authorization, BearerPrefix)
    ensures GetCurrentAdmin(authorization, now, verify) == Err(401, "Invalid auth header")
  {
  }
}
