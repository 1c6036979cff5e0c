/**
 * End-to-end consequences: what a client sees over HTTP when the
 * managers' errors pass through the error mapper, and how tokens issued
 * at login fare at the middleware.
 */
module Flows {
  import opened Domain
  import opened Text
  import opened Tokens
  import opened Ledger
  import opened Repository
  import opened Auth
  import opened Classify
  import opened Gate

  /**
   * A live refresh token whose user has since disappeared is answered
   * 404, with the user-table look-up's question-not-found text.
   */
  lemma RefreshForMissingUserIsNotFound(
    t: UserTable, ledger: map<string, RefreshTokenInfo>, ts: TokenService, refreshToken: string, now: int,
    requestId: string)
    requires TableValid(t) && t.fault.None?
    requires Lookup(ledger, refreshToken, now).Some? && ledger[refreshToken].userId !in t.byId
    ensures var r := RefreshSpec(t, ledger, ts, refreshToken, now);
      r.Failure? &&
      HandleError(r.error, requestId) ==
        Reply(404, ErrorResponse("Not Found", "failed to get user: question not found"), None)
  {
    RefreshForMissingUser(t, ledger, ts, refreshToken, now);
  }

  /**
   * Registering a case variant of a registered email is answered 500
   * with the generic message, not 400 like an exact duplicate.
   */
  lemma CaseVariantDuplicateIsInternalError(
    t: UserTable, h: PasswordHasher, email: string, password: string, newId: string, salt: string,
    requestId: string)
    requires TableValid(t) && Sound(h) && t.fault.None?
    requires ValidateEmail(email) && ByteLen(password) >= MinPasswordBytes
    requires email !in t.idByEmail && ToLower(email) in t.idByEmail
    requires h.hash(password, salt).Success?
    ensures var r := RegisterSpec(t, h, email, password, newId, salt).0;
      r.Failure? && HandleError(r.error, requestId).status == 500 &&
      HandleError(r.error, requestId).body == ErrorResponse("Internal Server Error", "internal server error")
  {
    CaseVariantDuplicateReachesCreate(t, h, email, password, newId, salt);
  }

  /**
   * Every failed login is 400 with the error's text as message. With the
   * store up, that text tells an unknown email from a wrong password; with
   * the store down, the look-up's error is dropped and the login is
   * answered as if the user did not exist.
   */
  lemma LoginFailuresAreBadRequest(
    t: UserTable, ledger: map<string, RefreshTokenInfo>, ts: TokenService, h: PasswordHasher,
    email: string, password: string, now: int, requestId: string)
    requires TableValid(t)
    requires LoginSpec(t, ledger, ts, h, email, password, now).0.Failure?
    ensures var r := LoginSpec(t, ledger, ts, h, email, password, now).0;
      HandleError(r.error, requestId) == Reply(400, ErrorResponse("Bad Request", r.error.text), None)
    ensures t.fault.None? ==>
      LoginSpec(t, ledger, ts, h, email, password, now).0.error ==
        Invalid(if ToLower(email) in t.idByEmail then "invalid credentials" else "user not found")
    ensures t.fault.Some? ==>
      LoginSpec(t, ledger, ts, h, email, password, now).0.error == Invalid("user not found")
  {
  }

  /**
   * The access token returned by a login lets requests through the
   * middleware, as the logged-in user, until it expires; from then on
   * they are 401.
   */
  lemma LoginTokenAuthenticates(
    t: UserTable, ledger: map<string, RefreshTokenInfo>, ts: TokenService, h: PasswordHasher,
    email: string, password: string, now: int, later: int, requestId: string)
    requires TableValid(t) && Faithful(ts.codec) && SpaceFree(ts.codec)
    requires LoginSpec(t, ledger, ts, h, email, password, now).0.Success?
    ensures var resp := LoginSpec(t, ledger, ts, h, email, password, now).0.value;
      Authenticate(ts, "Bearer " + resp.accessToken, requestId, later) ==
        if later < now + ts.cfg.accessTokenExpiry then Proceed(resp.user.id, resp.user.email)
        else Unauthorized(401, InvalidTokenText, TokenExpired)
  {
    var resp := LoginSpec(t, ledger, ts, h, email, password, now).0.value;
    IssuedAccessTokenProceeds(ts, resp.user.id, resp.user.email, now, requestId, later);
  }

  /**
   * The access token minted by a refresh also passes the middleware as
   * the ledger entry's user while it is live.
   */
  lemma RefreshedTokenAuthenticates(
    t: UserTable, ledger: map<string, RefreshTokenInfo>, ts: TokenService, refreshToken: string, now: int,
    later: int, requestId: string)
    requires TableValid(t) && Faithful(ts.codec) && SpaceFree(ts.codec)
    requires RefreshSpec(t, ledger, ts, refreshToken, now).Success?
    requires later < now + ts.cfg.accessTokenExpiry
    ensures var u := FindById(t, ledger[refreshToken].userId).value;
      Authenticate(ts, "Bearer " + RefreshSpec(t, ledger, ts, refreshToken, now).value, requestId, later) ==
        Proceed(u.id, u.email)
  {
    var u := FindById(t, ledger[refreshToken].userId).value;
    IssuedAccessTokenProceeds(ts, u.id, u.email, now, requestId, later);
  }
}
