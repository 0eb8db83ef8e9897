/**
  Session tokens and the session cookie policy (backend/src/utils/jwt.js).

  The signing library is a parameter: a `Signer` gives the token
  `jwt.sign` writes for a set of claims under a secret, and what the signature
  and structure checks of `jwt.verify` make of a token under a secret. The
  expiry check of `jwt.verify` is written out, because the 24-hour lifetime
  is the property of interest.
*/
module Jwt {
  import opened Wrappers
  import opened Errors
  import opened Config

  const ONE_DAY_IN_SECONDS: int := 24 * 60 * 60

  /** The payload `{ userId }` plus the `iat` and `exp` that `jwt.sign` adds, in seconds. */
  datatype Claims = Claims(userId: string, iat: int, exp: int)

  datatype Signer = Signer(
    sign: (Claims, string) -> string,
    decode: (string, string) -> Result<Claims, AuthFailure>)

  /**
    A token signed under a secret is a non-empty string that decodes, under
    that secret, to the claims that were signed.
  */
  ghost predicate Sound(s: Signer) {
    forall c, secret :: s.sign(c, secret) != "" && s.decode(s.sign(c, secret), secret) == Ok(c)
  }

  /** The claims `jwt.sign` writes at time `now` with `expiresIn: ONE_DAY_IN_SECONDS`. */
  function IssuedClaims(userId: string, now: int): (c: Claims)
    ensures c.userId == userId && c.iat == now
    ensures c.exp - c.iat == 86400
  {
    Claims(userId, now, now + ONE_DAY_IN_SECONDS)
  }

  /** `generateToken`: refuses to sign without a configured secret. */
  function GenerateToken(userId: string, env: Env, now: int, signer: Signer): (r: Result<string, Error>)
    ensures r.Err? <==> !Truthy(env.jwtSecret)
    ensures r.Err? ==> r.error == ConfigError(JwtSecretMissing)
  {
    if !Truthy(env.jwtSecret) then Err(ConfigError(JwtSecretMissing))
    else Ok(signer.sign(IssuedClaims(userId, now), env.jwtSecret.value))
  }

  /**
    `verifyToken`: refuses without a configured secret; otherwise `jwt.verify`
    checks structure and signature and then rejects a token whose `exp` is not
    after the current time (in seconds).
  */
  function VerifyToken(token: string, env: Env, now: int, signer: Signer): (r: Result<Claims, Error>)
    ensures !Truthy(env.jwtSecret) ==> r == Err(ConfigError(JwtSecretMissing))
    ensures r.Ok? ==> now < r.value.exp
  {
    if !Truthy(env.jwtSecret) then Err(ConfigError(JwtSecretMissing))
    else
      match signer.decode(token, env.jwtSecret.value)
      case Err(f) => Err(AuthError(f))
      case Ok(c) => if now >= c.exp then Err(AuthError(Expired)) else Ok(c)
  }

  /**
    A token issued at `issuedAt` for `userId` verifies, under the same
    configuration, to that user exactly while less than 24 hours have passed,
    and is refused as expired from then on.
  */
  lemma IssuedTokenVerifies(userId: string, env: Env, issuedAt: int, now: int, signer: Signer)
    requires Sound(signer) && Truthy(env.jwtSecret)
    ensures GenerateToken(userId, env, issuedAt, signer).Ok?
    ensures var r := VerifyToken(GenerateToken(userId, env, issuedAt, signer).value, env, now, signer);
      (r.Ok? <==> now < issuedAt + 86400) &&
      (r.Ok? ==> r.value.userId == userId && r.value.iat == issuedAt) &&
      (r.Err? ==> r.error == AuthError(Expired))
  {
    var secret := env.jwtSecret.value;
    assert signer.decode(signer.sign(IssuedClaims(userId, issuedAt), secret), secret) == Ok(IssuedClaims(userId, issuedAt));
  }

  // ---------------------------------------------------------------- cookies

  datatype SameSite = Strict | Lax | NoRestriction  // "strict", "lax", "none"

  /** Cookie attributes; `maxAge` is in milliseconds and absent when clearing. */
  datatype CookieOptions = CookieOptions(httpOnly: bool, sameSite: SameSite, secure: bool, maxAge: Option<int>)

  /**
    `getCookieOptions`: the session cookie is always HTTP-only and lives as
    long as a token (in milliseconds); it is cross-site and HTTPS-only in
    production, same-site-lax and plain elsewhere.
  */
  function GetCookieOptions(env: Env): (o: CookieOptions)
    ensures o.httpOnly
    ensures o.maxAge == Some(ONE_DAY_IN_SECONDS * 1000) && o.maxAge == Some(86_400_000)
    ensures o.secure <==> IsProduction(env)
    ensures o.secure <==> o.sameSite == NoRestriction
    ensures !o.secure ==> o.sameSite == Lax
  {
    var isProduction := IsProduction(env);
    CookieOptions(
      httpOnly := true,
      sameSite := if isProduction then NoRestriction else Lax,
      secure := isProduction,
      maxAge := Some(ONE_DAY_IN_SECONDS * 1000))
  }
}
