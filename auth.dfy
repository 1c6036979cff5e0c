/**
 * The auth manager: registration, login and access-token refresh, over
 * the users table, a password hash/check pair and the refresh-token
 * ledger.
 *
 * Each operation is specified by a function over the collaborators'
 * abstract state (`RegisterSpec`, `LoginSpec`, `RefreshSpec`); the
 * `AuthService` methods run the source's sequence of calls and are
 * proved to produce exactly that. Fresh user ids, bcrypt salts and the
 * clock are parameters.
 */
module Auth {
  import opened Domain
  import opened Text
  import opened Tokens
  import opened Ledger
  import opened Repository

  // ---------------------------------------------------------------------
  // Email syntax: ^[a-zA-Z0-9._%+\-]+@[a-zA-Z0-9.\-]+\.[a-zA-Z]{2,}$

  predicate IsAsciiLetter(c: char)
  {
    'a' <= c <= 'z' || 'A' <= c <= 'Z'
  }

  predicate IsDigit(c: char)
  {
    '0' <= c <= '9'
  }

  /** `[a-zA-Z0-9._%+\-]` */
  predicate IsLocalChar(c: char)
  {
    IsAsciiLetter(c) || IsDigit(c) || c == '.' || c == '_' || c == '%' || c == '+' || c == '-'
  }

  /** `[a-zA-Z0-9.\-]` */
  predicate IsDomainChar(c: char)
  {
    IsAsciiLetter(c) || IsDigit(c) || c == '.' || c == '-'
  }

  /**
   * The pattern matched with its `@` at `at` and its escaped `.` at `dot`:
   * a non-empty local part, a non-empty domain part, and at least two
   * letters after the dot, up to the end of the text.
   */
  ghost predicate EmailShapeAt(s: string, at: int, dot: int)
  {
    && 0 < at && at + 1 < dot && dot + 2 < |s|
    && s[at] == '@' && s[dot] == '.'
    && (forall i :: 0 <= i < at ==> IsLocalChar(s[i]))
    && (forall i :: at < i < dot ==> IsDomainChar(s[i]))
    && (forall i :: dot < i < |s| ==> IsAsciiLetter(s[i]))
  }

  /** The language of the regular expression. */
  ghost predicate MatchesEmailPattern(s: string)
  {
    exists at, dot :: EmailShapeAt(s, at, dot)
  }

  /** Index of the last `c` in `s`, or -1 when there is none. */
  function LastIndexOf(s: string, c: char): (i: int)
    ensures -1 <= i < |s|
    ensures i >= 0 ==> s[i] == c
    ensures forall k :: i < k < |s| ==> s[k] != c
  {
    if s == [] then -1
    else if s[|s| - 1] == c then |s| - 1
    else LastIndexOf(s[..|s| - 1], c)
  }

  /**
   * `validateEmail`: neither `@` nor a letter can stand in the final run
   * of letters or before the `@`, so the only candidates are the first `@`
   * and the last `.`.
   */
  function ValidateEmail(email: string): (ok: bool)
    ensures ok ==> MatchesEmailPattern(email)
    ensures ok ==> IsAscii(email)
    ensures ok ==> forall i :: 0 <= i < |email| && email[i] == '@' ==> i == IndexOf(email, '@')
  {
    var at := IndexOf(email, '@');
    var dot := LastIndexOf(email, '.');
    var ok :=
      && 0 < at && at + 1 < dot && dot + 2 < |email|
      && email[at] == '@'
      && (forall i :: 0 <= i < at ==> IsLocalChar(email[i]))
      && (forall i :: at < i < dot ==> IsDomainChar(email[i]))
      && (forall i :: dot < i < |email| ==> IsAsciiLetter(email[i]));
    assert ok ==> EmailShapeAt(email, at, dot);
    ok
  }

  /** Any match of the pattern has its `@` at the first `@` and its dot at the last `.`. */
  lemma ShapeIsAtFirstAtAndLastDot(s: string, at: int, dot: int)
    requires EmailShapeAt(s, at, dot)
    ensures at == IndexOf(s, '@') && dot == LastIndexOf(s, '.')
  {
    var first := IndexOf(s, '@');
    assert forall i :: 0 <= i < first ==> s[..first][i] == s[i];
  }

  /** The decision procedure is the shape test at the first `@` and the last `.`. */
  lemma ValidateEmailIsShapeAtCandidates(s: string)
    ensures ValidateEmail(s) <==> EmailShapeAt(s, IndexOf(s, '@'), LastIndexOf(s, '.'))
  {
  }

  /**
   * The decision procedure accepts exactly the pattern's language; an
   * accepted address holds exactly one `@` and only ASCII characters.
   */
  lemma ValidateEmailMatchesPattern(s: string)
    ensures ValidateEmail(s) <==> MatchesEmailPattern(s)
    ensures ValidateEmail(s) ==> IsAscii(s)
    ensures ValidateEmail(s) ==> forall i :: 0 <= i < |s| && s[i] == '@' ==> i == IndexOf(s, '@')
  {
    ValidateEmailIsShapeAtCandidates(s);
    if ValidateEmail(s) {
      ShapeIsAscii(s, IndexOf(s, '@'), LastIndexOf(s, '.'));
    }
    if MatchesEmailPattern(s) {
      var a, d :| EmailShapeAt(s, a, d);
      ShapeIsAtFirstAtAndLastDot(s, a, d);
    }
  }

  /** A match holds only ASCII characters, and its only `@` is the separator. */
  lemma ShapeIsAscii(s: string, at: int, dot: int)
    requires EmailShapeAt(s, at, dot)
    ensures IsAscii(s)
    ensures forall i :: 0 <= i < |s| && s[i] == '@' ==> i == at
  {
  }

  // ---------------------------------------------------------------------
  // Password hashing (bcrypt) as an abstract pair.

  /**
   * `hash(password, salt)` may fail (the library refuses some inputs);
   * `matches(digest, password)` is the constant-time comparison.
   */
  datatype PasswordHasher = PasswordHasher(
    hash: (string, string) -> Result<string>,
    matches: (string, string) -> bool)

  /** A digest matches the password it was computed from, and hashing failures wrap no domain sentinel. */
  ghost predicate Sound(h: PasswordHasher)
  {
    forall password, salt ::
      (h.hash(password, salt).Success? ==> h.matches(h.hash(password, salt).value, password)) &&
      (h.hash(password, salt).Failure? ==> h.hash(password, salt).error.chain == {})
  }

  /** Passwords shorter than this many bytes are refused. */
  const MinPasswordBytes: nat := 8

  // ---------------------------------------------------------------------
  // The three operations, over abstract state.

  /**
   * `Register`: email syntax, then password length, then an existing row
   * for the email exactly as given; then hash, and store the lower-cased
   * email under the fresh id.
   */
  function RegisterSpec(t: UserTable, h: PasswordHasher, email: string, password: string, newId: string, salt: string)
    : (res: (Result<User>, UserTable))
    requires TableValid(t) && Sound(h)
    ensures TableValid(res.1)
    ensures res.0.Failure? ==> res.1 == t
    ensures res.0.Failure? && Is(res.0.error, InvalidInput) <==>
      !ValidateEmail(email) || ByteLen(password) < MinPasswordBytes || FindByEmail(t, email).Success?
    ensures !ValidateEmail(email) ==> res.0 == Failure(Invalid("invalid email format"))
    ensures ValidateEmail(email) && ByteLen(password) < MinPasswordBytes ==>
      res.0 == Failure(Invalid("password must be at least 8 characters"))
    ensures ValidateEmail(email) && ByteLen(password) >= MinPasswordBytes && FindByEmail(t, email).Success? ==>
      res.0 == Failure(Invalid("user with this email already exists"))
    ensures res.0.Success? <==>
      && ValidateEmail(email) && ByteLen(password) >= MinPasswordBytes && FindByEmail(t, email).Failure?
      && h.hash(password, salt).Success? && t.fault.None? && newId !in t.byId && ToLower(email) !in t.idByEmail
    ensures res.0.Success? ==>
      && res.0.value == User(newId, ToLower(email), h.hash(password, salt).value)
      && res.1.byId == t.byId[newId := res.0.value]
      && FindByEmail(res.1, ToLower(email)) == Success(res.0.value)
  {
    if !ValidateEmail(email) then (Failure(Invalid("invalid email format")), t)
    else if ByteLen(password) < MinPasswordBytes then (Failure(Invalid("password must be at least 8 characters")), t)
    else if FindByEmail(t, email).Success? then (Failure(Invalid("user with this email already exists")), t)
    else match h.hash(password, salt)
      case Failure(e) => (Failure(Wrapf("failed to hash password", e)), t)
      case Success(digest) =>
        var user := User(newId, ToLower(email), digest);
        var (err, t') := Insert(t, user);
        if err.Some? then (Failure(Wrapf("failed to create user", err.value)), t)
        else (Success(user), t')
  }

  /**
   * `Login`: find the user by the lower-cased email, check the password,
   * issue both tokens and record the refresh token in the ledger.
   */
  function LoginSpec(
    t: UserTable, ledger: map<string, RefreshTokenInfo>, ts: TokenService, h: PasswordHasher,
    email: string, password: string, now: int)
    : (res: (Result<AuthResponse>, map<string, RefreshTokenInfo>))
    requires TableValid(t)
    ensures res.0.Failure? <==>
      FindByEmail(t, ToLower(email)).Failure? || !h.matches(FindByEmail(t, ToLower(email)).value.passwordHash, password)
    ensures FindByEmail(t, ToLower(email)).Failure? ==> res.0 == Failure(Invalid("user not found"))
    ensures res.0.Failure? ==> Is(res.0.error, InvalidInput) && res.1 == ledger
    ensures res.0.Success? ==>
      && res.0.value.user == FindByEmail(t, ToLower(email)).value
      && res.0.value.refreshToken == ts.GenerateRefreshToken(res.0.value.user.id, now)
      && res.0.value.accessToken == ts.GenerateAccessToken(res.0.value.user.id, res.0.value.user.email, now)
      && res.1 == ledger[res.0.value.refreshToken :=
                         RefreshTokenInfo(res.0.value.user.id, now + ts.cfg.refreshTokenExpiry)]
  {
    match FindByEmail(t, ToLower(email))
    case Failure(_) => (Failure(Invalid("user not found")), ledger)
    case Success(user) =>
      if !h.matches(user.passwordHash, password) then (Failure(Invalid("invalid credentials")), ledger)
      else
        var access := ts.GenerateAccessToken(user.id, user.email, now);
        var refresh := ts.GenerateRefreshToken(user.id, now);
        (Success(AuthResponse(access, refresh, user)),
         ledger[refresh := RefreshTokenInfo(user.id, now + ts.cfg.refreshTokenExpiry)])
  }

  /**
   * `RefreshAccessToken`: only the ledger decides whether the refresh
   * token is good; the user named by the ledger entry gets a new access
   * token. The ledger is read, never written.
   */
  function RefreshSpec(
    t: UserTable, ledger: map<string, RefreshTokenInfo>, ts: TokenService, refreshToken: string, now: int)
    : (r: Result<string>)
    requires TableValid(t)
    ensures r.Failure? && Is(r.error, InvalidInput) <==> Lookup(ledger, refreshToken, now).None?
    ensures r.Success? <==>
      Lookup(ledger, refreshToken, now).Some? && FindById(t, Lookup(ledger, refreshToken, now).value.userId).Success?
    ensures r.Success? ==>
      var u := FindById(t, ledger[refreshToken].userId).value;
      r.value == ts.GenerateAccessToken(u.id, u.email, now)
  {
    match Lookup(ledger, refreshToken, now)
    case None => Failure(Invalid("invalid or expired refresh token"))
    case Some(info) =>
      match FindById(t, info.userId)
      case Failure(e) => Failure(Wrapf("failed to get user", e))
      case Success(user) => Success(ts.GenerateAccessToken(user.id, user.email, now))
  }

  // ---------------------------------------------------------------------
  // The service object.

  class AuthService {
    const userRepo: UserRepository
    const tokenService: TokenService
    const refreshTokens: RefreshTokenStore
    const hasher: PasswordHasher

    ghost predicate Valid()
      reads userRepo
    {
      userRepo.Valid() && Sound(hasher)
    }

    constructor (userRepo: UserRepository, tokenService: TokenService, refreshTokens: RefreshTokenStore, hasher: PasswordHasher)
      requires userRepo.Valid() && Sound(hasher)
      ensures Valid()
      ensures this.userRepo == userRepo && this.tokenService == tokenService
      ensures this.refreshTokens == refreshTokens && this.hasher == hasher
    {
      this.userRepo := userRepo;
      this.tokenService := tokenService;
      this.refreshTokens := refreshTokens;
      this.hasher := hasher;
    }

    method Register(email: string, password: string, newId: string, salt: string) returns (r: Result<User>)
      requires Valid()
      modifies userRepo
      ensures Valid()
      ensures (r, userRepo.Table()) == RegisterSpec(old(userRepo.Table()), hasher, email, password, newId, salt)
    {
      if !ValidateEmail(email) {
        return Failure(Invalid("invalid email format"));
      }
      if ByteLen(password) < MinPasswordBytes {
        return Failure(Invalid("password must be at least 8 characters"));
      }
      var existing := userRepo.GetByEmail(email);
      if existing.Success? {
        return Failure(Invalid("user with this email already exists"));
      }
      var hashed := hasher.hash(password, salt);
      if hashed.Failure? {
        return Failure(Wrapf("failed to hash password", hashed.error));
      }
      var user := User(newId, ToLower(email), hashed.value);
      var err := userRepo.Create(user);
      if err.Some? {
        return Failure(Wrapf("failed to create user", err.value));
      }
      return Success(user);
    }

    method Login(email: string, password: string, now: int) returns (r: Result<AuthResponse>)
      requires Valid()
      modifies refreshTokens
      ensures (r, refreshTokens.tokens) ==
        LoginSpec(userRepo.Table(), old(refreshTokens.tokens), tokenService, hasher, email, password, now)
    {
      var found := userRepo.GetByEmail(ToLower(email));
      if found.Failure? {
        return Failure(Invalid("user not found"));
      }
      var user := found.value;
      if !hasher.matches(user.passwordHash, password) {
        return Failure(Invalid("invalid credentials"));
      }
      var access := tokenService.GenerateAccessToken(user.id, user.email, now);
      var refresh := tokenService.GenerateRefreshToken(user.id, now);
      refreshTokens.Save(refresh, RefreshTokenInfo(user.id, now + tokenService.cfg.refreshTokenExpiry));
      return Success(AuthResponse(access, refresh, user));
    }

    method RefreshAccessToken(refreshToken: string, now: int) returns (r: Result<string>)
      requires Valid()
      ensures r == RefreshSpec(userRepo.Table(), refreshTokens.tokens, tokenService, refreshToken, now)
    {
      var info := refreshTokens.Get(refreshToken, now);
      if info.None? {
        return Failure(Invalid("invalid or expired refresh token"));
      }
      var found := userRepo.GetByID(info.value.userId);
      if found.Failure? {
        return Failure(Wrapf("failed to get user", found.error));
      }
      return Success(tokenService.GenerateAccessToken(found.value.id, found.value.email, now));
    }
  }

  // ---------------------------------------------------------------------
  // Properties across operations.

  /** Logging in with the credentials just registered succeeds, for the registered user. */
  lemma RegisterThenLogin(
    t: UserTable, h: PasswordHasher, ts: TokenService, ledger: map<string, RefreshTokenInfo>,
    email: string, password: string, newId: string, salt: string, now: int)
    requires TableValid(t) && Sound(h)
    requires RegisterSpec(t, h, email, password, newId, salt).0.Success?
    ensures var (reg, t') := RegisterSpec(t, h, email, password, newId, salt);
      var (login, ledger') := LoginSpec(t', ledger, ts, h, email, password, now);
      && login.Success? && login.value.user == reg.value
      && ledger' == ledger[login.value.refreshToken := RefreshTokenInfo(newId, now + ts.cfg.refreshTokenExpiry)]
  {
    var (reg, t') := RegisterSpec(t, h, email, password, newId, salt);
    assert h.matches(h.hash(password, salt).value, password);
  }

  /** Registering an already lower-case email a second time is refused as invalid input, whatever the password. */
  lemma SecondRegistrationRejected(
    t: UserTable, h: PasswordHasher, email: string, password: string, newId: string, salt: string,
    password2: string, newId2: string, salt2: string)
    requires TableValid(t) && Sound(h) && ToLower(email) == email
    requires RegisterSpec(t, h, email, password, newId, salt).0.Success?
    ensures var t' := RegisterSpec(t, h, email, password, newId, salt).1;
      var again := RegisterSpec(t', h, email, password2, newId2, salt2);
      again.0.Failure? && Is(again.0.error, InvalidInput) && again.1 == t'
  {
  }

  /**
   * The duplicate check looks the email up as given, while the row is
   * stored lower-cased: a case variant of a registered email passes the
   * check and is refused by the store's unique index instead, with an
   * error that is not invalid input.
   */
  lemma CaseVariantDuplicateReachesCreate(
    t: UserTable, h: PasswordHasher, email: string, password: string, newId: string, salt: string)
    requires TableValid(t) && Sound(h) && t.fault.None?
    requires ValidateEmail(email) && ByteLen(password) >= MinPasswordBytes
    requires email !in t.idByEmail && ToLower(email) in t.idByEmail
    requires h.hash(password, salt).Success?
    ensures var res := RegisterSpec(t, h, email, password, newId, salt);
      && res.0 == Failure(Wrapf("failed to create user", UniqueViolation))
      && !Is(res.0.error, InvalidInput) && res.1 == t
  {
  }

  /**
   * A refresh token from a login refreshes, for the logged-in user, at
   * every instant up to and including the ledger entry's expiry, and is
   * refused as invalid input after it.
   */
  lemma LoginThenRefresh(
    t: UserTable, ledger: map<string, RefreshTokenInfo>, ts: TokenService, h: PasswordHasher,
    email: string, password: string, now: int, later: int)
    requires TableValid(t) && t.fault.None?
    requires LoginSpec(t, ledger, ts, h, email, password, now).0.Success?
    ensures var (login, ledger') := LoginSpec(t, ledger, ts, h, email, password, now);
      var u := login.value.user;
      var r := RefreshSpec(t, ledger', ts, login.value.refreshToken, later);
      && (r.Success? <==> later <= now + ts.cfg.refreshTokenExpiry)
      && (r.Success? ==> r.value == ts.GenerateAccessToken(u.id, u.email, later))
      && (r.Failure? ==> Is(r.error, InvalidInput))
  {
    var (login, ledger') := LoginSpec(t, ledger, ts, h, email, password, now);
    var u := login.value.user;
    assert u.id in t.byId && t.byId[u.id] == u;
  }

  /** Once its ledger entry is deleted, a refresh token is refused as invalid input. */
  lemma RefreshAfterDeleteRejected(
    t: UserTable, ledger: map<string, RefreshTokenInfo>, ts: TokenService, refreshToken: string, now: int)
    requires TableValid(t)
    ensures RefreshSpec(t, ledger - {refreshToken}, ts, refreshToken, now) == Failure(Invalid("invalid or expired refresh token"))
  {
  }

  /**
   * Refresh never decodes the refresh token: the outcome is the same
   * whatever the token decoder does, so the token's signature and `exp`
   * are never consulted.
   */
  lemma RefreshIgnoresTokenContents(
    t: UserTable, ledger: map<string, RefreshTokenInfo>, cfg: JwtConfig,
    encode: Jwt -> string, decode1: string -> Option<Jwt>, decode2: string -> Option<Jwt>,
    refreshToken: string, now: int)
    requires TableValid(t)
    ensures RefreshSpec(t, ledger, TokenService(cfg, Codec(encode, decode1)), refreshToken, now) ==
            RefreshSpec(t, ledger, TokenService(cfg, Codec(encode, decode2)), refreshToken, now)
  {
    var ts1 := TokenService(cfg, Codec(encode, decode1));
    var ts2 := TokenService(cfg, Codec(encode, decode2));
    if Lookup(ledger, refreshToken, now).Some? && FindById(t, ledger[refreshToken].userId).Success? {
      var u := FindById(t, ledger[refreshToken].userId).value;
      AccessTokenIgnoresDecoder(ts1, ts2, u.id, u.email, now);
    }
  }

  lemma AccessTokenIgnoresDecoder(ts1: TokenService, ts2: TokenService, userId: string, email: string, now: int)
    requires ts1.cfg == ts2.cfg && ts1.codec.encode == ts2.codec.encode
    ensures ts1.GenerateAccessToken(userId, email, now) == ts2.GenerateAccessToken(userId, email, now)
  {
    assert ts1.AccessClaims(userId, email, now) == ts2.AccessClaims(userId, email, now);
  }

  /** A ledger entry that points at a user no longer in the table gives a wrapped not-found error, not invalid input. */
  lemma RefreshForMissingUser(
    t: UserTable, ledger: map<string, RefreshTokenInfo>, ts: TokenService, refreshToken: string, now: int)
    requires TableValid(t) && t.fault.None?
    requires Lookup(ledger, refreshToken, now).Some? && ledger[refreshToken].userId !in t.byId
    ensures RefreshSpec(t, ledger, ts, refreshToken, now) ==
      Failure(Wrapf("failed to get user", SentinelError(QuestionNotFound)))
  {
  }
}
