/**
 * The authentication middleware: reads the `Authorization` header,
 * expects exactly `Bearer <token>`, verifies the token and hands the
 * user id and email from its claims to the protected handler.
 */
module Gate {
  import opened Domain
  import opened Text
  import opened Tokens
  import opened Classify

  /**
   * What the middleware does with a request: answer it through the error
   * mapper, answer it with a plain-text 401 (logging the verifier's
   * reason), or pass it on with the caller's identity.
   */
  datatype GateOutcome =
    | ErrorReply(reply: Reply)
    | Unauthorized(status: nat, text: string, reason: VerifyError)
    | Proceed(userId: string, email: string)

  /** `http.Error` ends the message with a newline. */
  const InvalidTokenText: string := "invalid or expired token\n"

  /**
   * `Auth`: a missing header and a malformed one go through the error
   * mapper (which wraps no sentinel, so both become 500); a token that
   * does not verify is 401.
   */
  function Authenticate(ts: TokenService, header: string, requestId: string, now: int): (g: GateOutcome)
    ensures header == [] ==> g == ErrorReply(HandleError(NewError("missing authorization header"), requestId))
    ensures header != [] && !(|Split(header, ' ')| == 2 && Split(header, ' ')[0] == "Bearer") ==>
      g == ErrorReply(HandleError(NewError("invalid authorization header format"), requestId))
    ensures g.ErrorReply? ==> g.reply.status == StatusInternalServerError
    ensures g.Unauthorized? ==>
      && g.status == StatusUnauthorized && g.text == InvalidTokenText
      && |Split(header, ' ')| == 2 && ts.VerifyToken(Split(header, ' ')[1], now) == Rejected(g.reason)
    ensures g.Proceed? ==>
      |Split(header, ' ')| == 2 && ts.VerifyToken(Split(header, ' ')[1], now).Verified?
  {
    if header == [] then ErrorReply(HandleError(NewError("missing authorization header"), requestId))
    else
      var parts := Split(header, ' ');
      if |parts| != 2 || parts[0] != "Bearer" then
        ErrorReply(HandleError(NewError("invalid authorization header format"), requestId))
      else match ts.VerifyToken(parts[1], now)
        case Rejected(reason) => Unauthorized(StatusUnauthorized, InvalidTokenText, reason)
        case Verified(claims) => Proceed(claims.userId, claims.email)
  }

  /** The only headers that get past the format check: `Bearer`, one space, and a token with no space in it. */
  predicate WellFormedHeader(header: string)
  {
    |header| >= 7 && header[..7] == "Bearer " && ' ' !in header[7..]
  }

  /**
   * A request proceeds exactly when its header is well formed and the
   * token after the space verifies; it then carries the token's user id
   * and email. A well-formed header whose token does not verify is 401.
   */
  lemma AuthenticateDecision(ts: TokenService, header: string, requestId: string, now: int)
    ensures Authenticate(ts, header, requestId, now).Proceed? <==>
      WellFormedHeader(header) && ts.VerifyToken(header[7..], now).Verified?
    ensures WellFormedHeader(header) && ts.VerifyToken(header[7..], now).Verified? ==>
      Authenticate(ts, header, requestId, now) ==
        Proceed(ts.VerifyToken(header[7..], now).claims.userId, ts.VerifyToken(header[7..], now).claims.email)
    ensures Authenticate(ts, header, requestId, now).Unauthorized? <==>
      WellFormedHeader(header) && ts.VerifyToken(header[7..], now).Rejected?
    ensures WellFormedHeader(header) && ts.VerifyToken(header[7..], now).Rejected? ==>
      Authenticate(ts, header, requestId, now) ==
        Unauthorized(StatusUnauthorized, InvalidTokenText, ts.VerifyToken(header[7..], now).reason)
  {
    SplitInTwo(header, ' ');
    var parts := Split(header, ' ');
    if |parts| == 2 && parts[0] == "Bearer" {
      var i := IndexOf(header, ' ');
      assert i == 6 && header[..7] == header[..i] + [' '];
    }
    if WellFormedHeader(header) {
      assert header == header[..7] + header[7..];
      assert IndexOf(header, ' ') == 6 by {
        assert header[6] == ' ';
        assert ' ' !in header[..6] by {
          assert header[..6] == "Bearer";
        }
      }
    }
  }

  /** The scheme name is matched case-sensitively, although HTTP auth schemes are case-insensitive. */
  lemma LowercaseSchemeRefused(ts: TokenService, token: string, requestId: string, now: int)
    ensures Authenticate(ts, "bearer " + token, requestId, now) ==
      ErrorReply(HandleError(NewError("invalid authorization header format"), requestId))
  {
    var header := "bearer " + token;
    if ' ' !in token {
      SplitInTwo(header, ' ');
      assert header[..6] == "bearer";
      assert IndexOf(header, ' ') == 6 by {
        assert header[6] == ' ' && ' ' !in header[..6];
      }
    }
  }

  /** A live token from the issuer, sent as `Bearer <token>`, lets the request through with the issued identity. */
  lemma IssuedAccessTokenProceeds(ts: TokenService, userId: string, email: string, issuedAt: int, requestId: string, now: int)
    requires Faithful(ts.codec) && SpaceFree(ts.codec)
    ensures var token := ts.GenerateAccessToken(userId, email, issuedAt);
      Authenticate(ts, "Bearer " + token, requestId, now) ==
        if now < issuedAt + ts.cfg.accessTokenExpiry then Proceed(userId, email)
        else Unauthorized(StatusUnauthorized, InvalidTokenText, TokenExpired)
  {
    var token := ts.GenerateAccessToken(userId, email, issuedAt);
    var header := "Bearer " + token;
    assert header[..7] == "Bearer " && header[7..] == token;
    AccessTokenRoundTrip(ts, userId, email, issuedAt, now);
    AuthenticateDecision(ts, header, requestId, now);
  }

  /**
   * A live refresh token is accepted as a bearer token too, and the
   * request proceeds with an empty user id and email.
   */
  lemma RefreshTokenProceedsWithoutIdentity(ts: TokenService, userId: string, issuedAt: int, requestId: string, now: int)
    requires Faithful(ts.codec) && SpaceFree(ts.codec)
    requires now < issuedAt + ts.cfg.refreshTokenExpiry
    ensures Authenticate(ts, "Bearer " + ts.GenerateRefreshToken(userId, issuedAt), requestId, now) == Proceed("", "")
  {
    var token := ts.GenerateRefreshToken(userId, issuedAt);
    var header := "Bearer " + token;
    assert header[..7] == "Bearer " && header[7..] == token;
    RefreshTokenPassesAsAccessToken(ts, userId, issuedAt, now);
    AuthenticateDecision(ts, header, requestId, now);
  }
}
