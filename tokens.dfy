/**
 * The token signer: builds the claims of access and refresh tokens
 * (JSON Web Tokens, RFC 7519, signed with HMAC SHA-256 as in section 3.2
 * of RFC 7518) and decides whether a presented token is acceptable.
 *
 * Signing and parsing belong to a JWT library and are modelled as an
 * oracle: a decoded token is a value `Jwt` that records its header
 * algorithm, its claims and the key its MAC was computed with (an ideal
 * MAC: a tag verifies under a key exactly when it was computed with that
 * key over that header and those claims). The compact string form is a
 * `Codec` whose decoder undoes its encoder.
 */
module Tokens {
  import opened Domain

  /** The `alg` header values the JWT library knows. */
  datatype SigningMethod =
    | HS256 | HS384 | HS512
    | RS256 | RS384 | RS512
    | ES256 | ES384 | ES512
    | PS256 | PS384 | PS512
    | EdDSA | NoneMethod

  /** The HMAC family (`*jwt.SigningMethodHMAC`). */
  predicate IsHmac(m: SigningMethod)
  {
    m.HS256? || m.HS384? || m.HS512?
  }

  /**
   * `TokenClaims`: `user_id` and `email`, plus the registered claims used
   * here (`sub`, `exp`, `iat`, each possibly absent). Times are seconds on
   * the service clock.
   */
  datatype Claims = Claims(
    userId: string,
    email: string,
    subject: string,
    expiresAt: Option<int>,
    issuedAt: Option<int>)

  /** A token as the library sees it once decoded. */
  datatype Jwt = Jwt(alg: SigningMethod, claims: Claims, signingKey: string)

  /** The compact serialization: every token the encoder produces decodes back to itself. */
  datatype Codec = Codec(encode: Jwt -> string, decode: string -> Option<Jwt>)

  ghost predicate Faithful(c: Codec)
  {
    forall j :: c.decode(c.encode(j)) == Some(j)
  }

  /** The compact form is base64url text and dots: it never holds a space. */
  ghost predicate SpaceFree(c: Codec)
  {
    forall j :: ' ' !in c.encode(j)
  }

  /** The signing secret and the two lifetimes. */
  datatype JwtConfig = JwtConfig(secret: string, accessTokenExpiry: int, refreshTokenExpiry: int)

  /** Why verification failed. */
  datatype VerifyError = Malformed | UnexpectedSigningMethod(alg: SigningMethod) | SignatureInvalid | TokenExpired

  datatype Verification = Verified(claims: Claims) | Rejected(reason: VerifyError)

  datatype TokenService = TokenService(cfg: JwtConfig, codec: Codec) {

    /** The claims of an access token issued at `now`. */
    function AccessClaims(userId: string, email: string, now: int): Claims
    {
      Claims(userId, email, "", Some(now + cfg.accessTokenExpiry), Some(now))
    }

    /** The claims of a refresh token issued at `now`: the subject only, no user fields. */
    function RefreshClaims(userId: string, now: int): Claims
    {
      Claims("", "", userId, Some(now + cfg.refreshTokenExpiry), Some(now))
    }

    /** `GenerateAccessToken`: HS256 over the access claims with the configured secret. */
    function GenerateAccessToken(userId: string, email: string, now: int): (token: string)
      ensures Faithful(codec) ==>
        codec.decode(token) == Some(Jwt(HS256, Claims(userId, email, "", Some(now + cfg.accessTokenExpiry), Some(now)), cfg.secret))
      ensures SpaceFree(codec) ==> ' ' !in token
    {
      codec.encode(Jwt(HS256, AccessClaims(userId, email, now), cfg.secret))
    }

    /** `GenerateRefreshToken`: HS256 over the refresh claims with the configured secret. */
    function GenerateRefreshToken(userId: string, now: int): (token: string)
      ensures Faithful(codec) ==>
        codec.decode(token) == Some(Jwt(HS256, Claims("", "", userId, Some(now + cfg.refreshTokenExpiry), Some(now)), cfg.secret))
      ensures SpaceFree(codec) ==> ' ' !in token
    {
      codec.encode(Jwt(HS256, RefreshClaims(userId, now), cfg.secret))
    }

    /**
     * `VerifyToken`: decode; the key callback refuses any method outside
     * the HMAC family; the MAC must verify under the secret; then an `exp`
     * claim, when present, must lie strictly after `now`.
     */
    function VerifyToken(token: string, now: int): (v: Verification)
      ensures codec.decode(token).None? ==> v == Rejected(Malformed)
      ensures v.Verified? <==>
        && codec.decode(token).Some? && IsHmac(codec.decode(token).value.alg)
        && codec.decode(token).value.signingKey == cfg.secret
        && (codec.decode(token).value.claims.expiresAt.None? || now < codec.decode(token).value.claims.expiresAt.value)
      ensures v.Verified? ==> v.claims == codec.decode(token).value.claims
      ensures codec.decode(token).Some? && !IsHmac(codec.decode(token).value.alg) ==>
        v == Rejected(UnexpectedSigningMethod(codec.decode(token).value.alg))
    {
      match codec.decode(token)
      case None => Rejected(Malformed)
      case Some(j) =>
        if !IsHmac(j.alg) then Rejected(UnexpectedSigningMethod(j.alg))
        else if j.signingKey != cfg.secret then Rejected(SignatureInvalid)
        else if j.claims.expiresAt.Some? && !(now < j.claims.expiresAt.value) then Rejected(TokenExpired)
        else Verified(j.claims)
    }
  }

  /** An access token verifies, with the claims it was issued with, exactly until its expiry instant. */
  lemma AccessTokenRoundTrip(ts: TokenService, userId: string, email: string, issuedAt: int, now: int)
    requires Faithful(ts.codec)
    ensures ts.VerifyToken(ts.GenerateAccessToken(userId, email, issuedAt), now) ==
      if now < issuedAt + ts.cfg.accessTokenExpiry
      then Verified(Claims(userId, email, "", Some(issuedAt + ts.cfg.accessTokenExpiry), Some(issuedAt)))
      else Rejected(TokenExpired)
  {
    assert ts.codec.decode(ts.GenerateAccessToken(userId, email, issuedAt)) ==
      Some(Jwt(HS256, ts.AccessClaims(userId, email, issuedAt), ts.cfg.secret));
  }

  /**
   * The verifier does not tell refresh tokens from access tokens: a live
   * refresh token verifies too, and yields an empty user id and email.
   */
  lemma RefreshTokenPassesAsAccessToken(ts: TokenService, userId: string, issuedAt: int, now: int)
    requires Faithful(ts.codec)
    requires now < issuedAt + ts.cfg.refreshTokenExpiry
    ensures var v := ts.VerifyToken(ts.GenerateRefreshToken(userId, issuedAt), now);
      v.Verified? && v.claims.userId == "" && v.claims.email == "" && v.claims.subject == userId
  {
    assert ts.codec.decode(ts.GenerateRefreshToken(userId, issuedAt)) ==
      Some(Jwt(HS256, ts.RefreshClaims(userId, issuedAt), ts.cfg.secret));
  }

  /** Any method outside the HMAC family is refused, whatever key or claims come with it. */
  lemma NonHmacRejected(ts: TokenService, token: string, now: int, j: Jwt)
    requires ts.codec.decode(token) == Some(j) && !IsHmac(j.alg)
    ensures ts.VerifyToken(token, now) == Rejected(UnexpectedSigningMethod(j.alg))
  {
  }

  /** Every HMAC variant is accepted, not only the HS256 the service itself issues. */
  lemma AnyHmacAccepted(ts: TokenService, m: SigningMethod, c: Claims, now: int)
    requires Faithful(ts.codec) && IsHmac(m)
    requires c.expiresAt.None? || now < c.expiresAt.value
    ensures ts.VerifyToken(ts.codec.encode(Jwt(m, c, ts.cfg.secret)), now) == Verified(c)
  {
    assert ts.codec.decode(ts.codec.encode(Jwt(m, c, ts.cfg.secret))) == Some(Jwt(m, c, ts.cfg.secret));
  }

  /** A token whose MAC was computed under any other key is refused. */
  lemma ForeignKeyRejected(ts: TokenService, m: SigningMethod, c: Claims, key: string, now: int)
    requires Faithful(ts.codec) && IsHmac(m) && key != ts.cfg.secret
    ensures ts.VerifyToken(ts.codec.encode(Jwt(m, c, key)), now) == Rejected(SignatureInvalid)
  {
    assert ts.codec.decode(ts.codec.encode(Jwt(m, c, key))) == Some(Jwt(m, c, key));
  }

  /** Two access tokens for the same user issued in different seconds are different strings. */
  lemma AccessTokensDifferByIssueTime(ts: TokenService, userId: string, email: string, t1: int, t2: int)
    requires Faithful(ts.codec) && t1 != t2
    ensures ts.GenerateAccessToken(userId, email, t1) != ts.GenerateAccessToken(userId, email, t2)
  {
    var j1 := Jwt(HS256, ts.AccessClaims(userId, email, t1), ts.cfg.secret);
    var j2 := Jwt(HS256, ts.AccessClaims(userId, email, t2), ts.cfg.secret);
    assert ts.codec.decode(ts.codec.encode(j1)) == Some(j1);
    assert ts.codec.decode(ts.codec.encode(j2)) == Some(j2);
  }
}
