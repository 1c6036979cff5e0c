# Question and answer service: a verified model of its service core

The service is an HTTP API. Clients register and log in, receive a
short-lived access token and a longer-lived refresh token, and ask and
answer questions. This project models its core in Dafny:

- **Authentication manager** (`Auth`):
  - registration: email syntax, password length, duplicate check, hashing, storing the lower-cased email;
  - login: look-up, password check, token issue, recording the refresh token;
  - access-token refresh.
- **Token signer** (`Tokens`):
  - the claims of access and refresh tokens;
  - the verification decision. The signature check requires an HMAC algorithm and the configured secret; the token must be unexpired.
- **Refresh-token ledger** (`Ledger`): an in-memory map from refresh token to user and expiry, with save, lookup, delete and a sweep of expired entries.
- **Question manager** (`Questions`) and **answer manager** (`Answers`):
  - validation of trimmed texts;
  - storing a new question or answer;
  - look-up, listing and deletion, delegated to the tables.
- **Authentication middleware** (`Gate`): reads the `Authorization: Bearer <token>` header, verifies the token and passes on the caller's identity.
- **Error mapper** (`Classify`): maps an error to 404, 400 or 500 by the domain sentinels it wraps. Internal errors are logged and hidden from the client.

The supporting modules are:

- `Domain`: errors as text plus the set of wrapped sentinels, which is what `errors.Is` looks at.
- `Text`: Go's `strings.TrimSpace`, UTF-8 `len`, ASCII `ToLower` and `strings.Split`.
- `Repository`: the users, questions and answers tables as objects over maps. Each table has a `fault` field that stands for a database outage.
- `Flows`: end-to-end consequences, where errors pass through the error mapper and login tokens pass through the middleware.

Three things outside the model become explicit parameters:

- The clock is a parameter `now`, one value per operation.
- Fresh user ids and bcrypt salts are parameters.
- The JWT library is an oracle:
  - a decoded token records its algorithm, its claims and the key its MAC was computed with;
  - a `Codec` whose decoder undoes its encoder (`Faithful`) stands for the compact serialization;
  - that serialization never contains a space (`SpaceFree`).

bcrypt is a `PasswordHasher` pair that is only assumed to be `Sound`: a digest matches the password it was computed from. `uuid.Parse` is a predicate `isUuid` held by the answer manager.

Some behaviour follows directly from the code and is worth knowing:

- Ledger expiry is strict (`ExpiresAt.Before(now)`). An entry is still live at its expiry instant, and the sweep removes only entries whose expiry is strictly earlier than `now`.
- The duplicate-email check of registration looks up the email as given, but the stored email is lower-cased. A case variant of a registered address therefore passes the check and is refused by the table's unique index as a plain error, which the mapper turns into a 500. This is `Auth.CaseVariantDuplicateReachesCreate` and `Flows.CaseVariantDuplicateIsInternalError`.
- Login drops the error of its user look-up. A login during a store outage is therefore answered 400 "invalid input data: user not found", like an unknown email, not 500 (`Flows.LoginFailuresAreBadRequest`).
- The user table reports a missing user with the question-not-found sentinel. So a refresh for a deleted user is answered 404 "failed to get user: question not found" (`Flows.RefreshForMissingUserIsNotFound`).
- The middleware sends a missing or malformed `Authorization` header through the error mapper. Those errors wrap no sentinel, so both are answered 500, not 401.
- The middleware matches the scheme name `Bearer` case-sensitively, and a token may not contain a space.
- The verifier does not tell refresh tokens from access tokens. A live refresh token passes the middleware, with an empty user id and email.
- Lengths are Go `len`, that is UTF-8 bytes, although the messages say "characters" (`Questions.BoundsCountBytes`).

## Model

| member | source | states |
|---|---|---|
| `Text.TrimSpaceIsCore` | internal/service/question_service.go:47 | the trimmed text is a slice of the input with only white space around it and none at its ends |
| `Text.TrimSpaceEmpty` | internal/service/question_service.go:47-50 | trimming leaves nothing exactly when the text is all white space |
| `Text.TrimSpaceNoEdges` | internal/service/question_service.go:24 | a text without white space at its ends is stored unchanged |
| `Text.TrimSpaceIdempotent` | internal/service/question_service.go:24 | trimming the stored text again changes nothing |
| `Text.ByteLenBounds` | internal/service/question_service.go:51-56 | a Go length is between one and four bytes per character, and exactly one per character for ASCII text |
| `Text.ToLowerIdempotent` | internal/service/auth_service.go:55 | lower-casing keeps the length, and a lower-cased email lower-cases to itself |
| `Text.Split` | internal/middleware/auth.go:25 | at least one piece; exactly one when the separator is absent |
| `Text.SplitPiecesLackSeparator` | internal/middleware/auth.go:25 | no piece contains the separator |
| `Text.SplitJoin` | internal/middleware/auth.go:25 | gluing the pieces back with the separator gives the header |
| `Text.SplitCount` | internal/middleware/auth.go:25-26 | there is one piece more than there are spaces |
| `Text.SplitInTwo` | internal/middleware/auth.go:25-26 | two pieces exactly when there is exactly one space; the pieces are what lies before and after it |
| `Tokens.TokenService.GenerateAccessToken` | internal/service/token_service.go:43-55 | under a faithful codec the token decodes to an HS256 token under the secret carrying the user id, the email, `exp` one access lifetime after now and `iat` now, and no subject; under a space-free codec it holds no space |
| `Tokens.TokenService.GenerateRefreshToken` | internal/service/token_service.go:57-66 | under a faithful codec the token decodes to an HS256 token under the secret carrying the user in `sub`, `exp` one refresh lifetime after now and `iat` now, with empty user id and email; under a space-free codec it holds no space |
| `Tokens.TokenService.VerifyToken` | internal/service/token_service.go:68-86 | an undecodable token is malformed; a non-HMAC algorithm is refused as an unexpected signing method; verified if and only if it decodes to an HMAC token under the secret whose `exp`, if present, lies after now; the claims returned are the token's own |
| `Tokens.AccessTokenRoundTrip` | internal/service/token_service.go:43-55 | an issued access token verifies, with the user id, email, expiry and issue time it was issued with, strictly before its expiry, and is refused as expired from then on |
| `Tokens.RefreshTokenPassesAsAccessToken` | internal/service/token_service.go:57-66 | a live refresh token verifies too, with an empty user id and email and the user in `sub` |
| `Tokens.NonHmacRejected` | internal/service/token_service.go:70-73 | any algorithm outside the HMAC family is refused as an unexpected signing method |
| `Tokens.AnyHmacAccepted` | internal/service/token_service.go:70-74 | every HMAC variant is accepted, not only the HS256 the signer issues |
| `Tokens.ForeignKeyRejected` | internal/service/token_service.go:74-79 | a token signed under any other key is refused |
| `Tokens.AccessTokensDifferByIssueTime` | internal/service/token_service.go:43-55 | two access tokens for the same user issued in different seconds are different strings |
| `Ledger.RefreshTokenStore.constructor` | internal/service/token_service.go:37-41 | a new ledger is empty |
| `Ledger.RefreshTokenStore.Save` | internal/service/token_service.go:88-92 | the entry is inserted or overwritten and every other entry is unchanged |
| `Ledger.RefreshTokenStore.Get` | internal/service/token_service.go:94-106 | an entry is returned if and only if it is present and its expiry is not strictly before now; it is the stored entry |
| `Ledger.RefreshTokenStore.Delete` | internal/service/token_service.go:108-112 | the token is absent afterwards and every other entry is unchanged |
| `Ledger.RefreshTokenStore.CleanupExpired` | internal/service/token_service.go:114-124 | after one pass with a single now the ledger holds exactly the entries still live at now |
| `Ledger.SweepIsSetDifference` | internal/service/token_service.go:119-123 | the sweep removes exactly the expired entries and keeps every other one unchanged |
| `Ledger.SweepIdempotent` | internal/service/token_service.go:114-124 | a second sweep at the same instant changes nothing |
| `Ledger.SweepUnobservable` | internal/service/token_service.go:102-104 | at the sweep's instant or later, every lookup answers the same with or without the sweep |
| `Ledger.DeleteIdempotent` | internal/service/token_service.go:108-112 | deleting twice is deleting once, and a deleted token is never found |
| `Ledger.SaveThenLookup` | internal/service/token_service.go:88-106 | a saved entry is found up to and including its expiry instant, and not after |
| `Repository.Insert` | internal/repository/user_repository.go:24-26 | a user is stored if and only if the store is up and both the id and the email are new; then both look-ups find it; otherwise nothing changes; the indexes stay consistent |
| `Repository.UserRepository.GetByID` | internal/repository/user_repository.go:28-35 | the row with that id, or the outage, or the question-not-found sentinel |
| `Repository.UserRepository.GetByEmail` | internal/repository/user_repository.go:37-44 | an exact, case-sensitive match on the stored email |
| `Repository.UserRepository.Create` | internal/repository/user_repository.go:24-26 | the table changes exactly as `Insert` says |
| `Repository.QuestionRepository.Create` | internal/repository/question_repository.go:25-27 | the question is stored under a fresh id, or nothing changes on an outage |
| `Repository.QuestionRepository.GetByID` | internal/repository/question_repository.go:29-36 | the row, or the question-not-found sentinel, or the outage |
| `Repository.QuestionRepository.GetAll` | internal/repository/question_repository.go:38-42 | every stored question exactly once: as many as there are rows, and each one is a row |
| `Repository.QuestionRepository.Delete` | internal/repository/question_repository.go:44-50 | the row is removed; a delete that removes nothing, a failed one included, reports question-not-found |
| `Repository.AnswerRepository.Create` | internal/repository/answer_repository.go:25-27 | the answer is stored under a fresh id with its other fields as given |
| `Repository.AnswerRepository.GetByID` | internal/repository/answer_repository.go:29-36 | the row, or the answer-not-found sentinel, or the outage |
| `Repository.AnswerRepository.Delete` | internal/repository/answer_repository.go:44-50 | the row is removed; a delete that removes nothing reports answer-not-found |
| `Auth.ValidateEmail` | internal/service/auth_service.go:117-124 | an accepted address matches the email pattern, is ASCII and holds a single `@` |
| `Auth.ShapeIsAtFirstAtAndLastDot` | internal/service/auth_service.go:118 | any match of the email pattern splits at the first `@` and the last `.` |
| `Auth.ValidateEmailIsShapeAtCandidates` | internal/service/auth_service.go:117-124 | the email check is the pattern's shape test at those two positions |
| `Auth.ValidateEmailMatchesPattern` | internal/service/auth_service.go:117-124 | the email check accepts exactly the language of the pattern; an accepted address is ASCII and has a single `@` |
| `Auth.ShapeIsAscii` | internal/service/auth_service.go:118 | an address matching the pattern is ASCII, so lower-casing it is ASCII lower-casing |
| `Auth.RegisterSpec` | internal/service/auth_service.go:34-64 | the failure is invalid input if and only if the email is malformed, the password is shorter than 8 bytes or the exact email is taken; the checks run in that order, and the first that fails decides the message: "invalid email format", then "password must be at least 8 characters", then "user with this email already exists"; success if and only if, in addition, hashing succeeds, the store is up and the id and lower-cased email are new; then the user has the fresh id, the lower-cased email and the password's digest, and is findable; a failure changes nothing |
| `Auth.LoginSpec` | internal/service/auth_service.go:66-96 | failure if and only if no user has the lower-cased email or the password does not match; every failure is invalid input and leaves the ledger alone; an unknown email gets "user not found"; on success both tokens are for the stored user issued at now, and the ledger gains exactly the refresh token, owned by the user, expiring one refresh lifetime later |
| `Auth.RefreshSpec` | internal/service/auth_service.go:98-115 | invalid input if and only if the ledger has no live entry for the token; success if and only if, in addition, the entry's user is found; the new access token is for that user, issued at now |
| `Auth.AuthService.constructor` | internal/service/auth_service.go:22-32 | the service holds the given table, signer, ledger and hasher, and is ready for use when the table is consistent and the hasher sound |
| `Auth.AuthService.Register` | internal/service/auth_service.go:34-64 | result and new users table are those of `RegisterSpec` |
| `Auth.AuthService.Login` | internal/service/auth_service.go:66-96 | result and new ledger are those of `LoginSpec`; the users table is not touched |
| `Auth.AuthService.RefreshAccessToken` | internal/service/auth_service.go:98-115 | result is that of `RefreshSpec`; nothing is modified |
| `Auth.RegisterThenLogin` | internal/service/auth_service.go:53-73 | logging in with the credentials just registered succeeds for the registered user and records its refresh token |
| `Auth.SecondRegistrationRejected` | internal/service/auth_service.go:43-46 | registering a lower-case email again is invalid input whatever the password, and changes nothing |
| `Auth.CaseVariantDuplicateReachesCreate` | internal/service/auth_service.go:43-61 | a case variant of a registered email passes the duplicate check and fails at the unique index with "failed to create user", which is not invalid input |
| `Auth.LoginThenRefresh` | internal/service/auth_service.go:86-89 | the refresh token from a login refreshes for that user exactly up to and including its ledger expiry, and is invalid input afterwards |
| `Auth.RefreshAfterDeleteRejected` | internal/service/auth_service.go:98-102 | once its ledger entry is deleted a refresh token is refused as invalid input |
| `Auth.RefreshIgnoresTokenContents` | internal/service/auth_service.go:98-115 | refresh never decodes the token: its outcome does not depend on the decoder, so the token's signature and `exp` are not consulted |
| `Auth.RefreshForMissingUser` | internal/service/auth_service.go:104-107 | a live entry for a user no longer in the table gives "failed to get user" wrapping question-not-found |
| `Questions.ValidateQuestion` | internal/service/question_service.go:46-58 | accepted if and only if the trimmed text is 10 to 1000 bytes long; every refusal wraps only invalid input |
| `Questions.QuestionRejectionReasons` | internal/service/question_service.go:47-56 | all white space is "required"; otherwise fewer than 10 bytes is "at least 10 characters"; more than 1000 bytes is "must not exceed 1000 characters" |
| `Questions.StoredTextRevalidates` | internal/service/question_service.go:18-25 | validation looks only at the trimmed text, so the stored text gets the same verdict |
| `Questions.BoundsCountBytes` | internal/service/question_service.go:51-56 | five three-byte characters pass the 10-character minimum; four hundred of them exceed the 1000-character maximum |
| `Questions.ByteLenOfRepeat` | internal/service/question_service.go:51 | a run of n copies of a character takes n times its byte length |
| `Questions.ThousandAndOneNulRefused` | internal/service/question_service_test.go:83-86 | 1001 NUL bytes are not white space and are refused as too long |
| `Questions.QuestionService.constructor` | internal/service/question_service.go:14-16 | the service holds the given questions table |
| `Questions.QuestionService.Create` | internal/service/question_service.go:18-32 | success if and only if validation passes and the store is up; then the trimmed text is stored under a fresh id; a validation error is returned as it is; a store error is wrapped with "failed to create question"; a failure changes nothing |
| `Questions.QuestionService.GetByID` | internal/service/question_service.go:34-36 | the row, or the question-not-found sentinel, or the outage |
| `Questions.QuestionService.GetAll` | internal/service/question_service.go:38-40 | every stored question exactly once |
| `Questions.QuestionService.Delete` | internal/service/question_service.go:42-44 | removes the row if and only if it exists and the store is up; otherwise question-not-found |
| `Answers.ValidateAnswer` | internal/service/answer_service.go:55-77 | accepted if and only if the trimmed user id is non-empty and a UUID and the trimmed text is 5 to 1000 bytes; every refusal wraps only invalid input |
| `Answers.UserIdCheckedFirst` | internal/service/answer_service.go:56-74 | a blank or malformed user id is reported before anything about the text; then a blank text is "answer text is required", fewer than 5 bytes is "at least 5 characters", and more than 1000 bytes is "must not exceed 1000 characters" |
| `Answers.StoredAnswerRevalidates` | internal/service/answer_service.go:34-38 | the stored trimmed fields get the same verdict as the request |
| `Answers.AnswerService.constructor` | internal/service/answer_service.go:17-22 | the service holds the given answers and questions tables, and the UUID syntax check |
| `Answers.AnswerService.Create` | internal/service/answer_service.go:24-45 | a missing question is reported first, with its own sentinel error; then validation; on success the answer stores the question id and the trimmed user id and text under a fresh id; a store error is wrapped with "failed to create answer"; a failure changes nothing |
| `Answers.AnswerService.GetByID` | internal/service/answer_service.go:47-49 | the row, or the answer-not-found sentinel, or the outage |
| `Answers.AnswerService.Delete` | internal/service/answer_service.go:51-53 | removes the row if and only if it exists and the store is up; otherwise answer-not-found |
| `Classify.HandleError` | internal/handler/errors.go:16-41 | 404 if and only if a not-found sentinel is wrapped; else 400 if and only if invalid input is wrapped; else 500; the body carries the status text; the message is the error's text, except for 500, where it is "internal server error" and the error is logged with the request id |
| `Classify.WrappingKeepsStatus` | internal/handler/errors.go:20-34 | wrapping an error with context never changes its status |
| `Classify.InternalErrorsLookAlike` | internal/handler/errors.go:28-40 | all internal errors give the same status and body |
| `Classify.InvalidInputIsBadRequest` | internal/handler/errors.go:25-27 | invalid input is 400 "Bad Request" with message "invalid input data: " followed by the detail |
| `Gate.Authenticate` | internal/middleware/auth.go:13-50 | an empty header is the mapper's reply to "missing authorization header"; a non-empty header that is not `Bearer` and one token is the mapper's reply to "invalid authorization header format"; every mapper reply here is 500; a 401 carries "invalid or expired token" and the verifier's reason; a request proceeds only with a verified token |
| `Gate.AuthenticateDecision` | internal/middleware/auth.go:25-47 | a request proceeds if and only if the header is `Bearer`, one space and a space-free token that verifies, and then carries that token's user id and email; a well-formed header with a refused token is 401 |
| `Gate.LowercaseSchemeRefused` | internal/middleware/auth.go:26-29 | `bearer <token>` is refused as a malformed header |
| `Gate.IssuedAccessTokenProceeds` | internal/middleware/auth.go:25-47 | an issued access token sent as a bearer token proceeds as its user before expiry and is 401 expired afterwards |
| `Gate.RefreshTokenProceedsWithoutIdentity` | internal/middleware/auth.go:33-45 | a live refresh token sent as a bearer token proceeds, with an empty user id and email |
| `Flows.RefreshForMissingUserIsNotFound` | internal/service/auth_service.go:104-107 | a refresh for a user no longer in the table is answered 404 "failed to get user: question not found" |
| `Flows.CaseVariantDuplicateIsInternalError` | internal/service/auth_service.go:59-61 | registering a case variant of a registered email is answered 500 with the generic message |
| `Flows.LoginFailuresAreBadRequest` | internal/service/auth_service.go:67-74 | every failed login is 400 with the error's text; with the store up the message tells an unknown email from a wrong password; during a store outage it is "user not found" |
| `Flows.LoginTokenAuthenticates` | internal/service/auth_service.go:76-95 | the login's access token passes the middleware as the logged-in user until it expires, and is 401 afterwards |
| `Flows.RefreshedTokenAuthenticates` | internal/service/auth_service.go:109-114 | the access token from a refresh passes the middleware as the ledger entry's user while it is live |

## Left out

- JWT encoding, HMAC computation and base64url are not modelled. They are the `Codec` oracle with an ideal MAC, assumed `Faithful` and `SpaceFree` where a lemma needs it.
- `exp` and `iat` are whole seconds in the token (`NumericDate`), while the ledger keeps full-precision times. The model uses one integer clock for both.
- Each operation reads the clock once, as `now`. The source reads it separately for `exp`, `iat` and the ledger expiry, so those can differ by the time between the calls.
- Signing errors (`SignedString`) are not modelled; signing always succeeds. The "failed to generate access token" and "failed to generate refresh token" branches are therefore not modelled.
- The `token.Valid` check after a successful parse can never fail, and it is not modelled.
- Issued tokens carry `exp` and `iat` but never `nbf`, and `Tokens.Claims` has no `nbf` field. The JWT library's default validation would refuse a secret-signed token whose `nbf` lies in the future; the model cannot represent such a token. `iat` is not checked by the library's default validation, and the model does not check it either.
- bcrypt's cost, salt generation and 72-byte limit are not modelled. Hashing is the `PasswordHasher` parameter, assumed `Sound`.
- uuid generation is a fresh-id parameter. `uuid.Parse`'s accepted formats are the `isUuid` parameter.
- `Text.ToLower`: only ASCII letters are lowered. `strings.ToLower` also lowers non-ASCII letters. This never matters for registration, since a valid email is ASCII (`Auth.ValidateEmailMatchesPattern`), but it does for the email given to login.
- Strings are sequences of Unicode scalar values. Go strings holding invalid UTF-8 are not modelled.
- Concurrency is not modelled. The ledger's read/write lock makes each operation atomic, and the model treats each operation as one step. The hourly ticker that calls `CleanupExpired` is not modelled; the sweep is an operation callable at any time.
- The database is not modelled. The tables are maps with one `fault` that stands for any failure. Specific database errors other than the unique violation are not distinguished.
- Loading a question's answers together with the question, and cascading deletes from a question to its answers, are not modelled.
- Ids are unbounded naturals. The width of `uint` and its wrap-around are not modelled.
- The request-id context lookup, HTTP plumbing and JSON encoding are not modelled. That includes `omitempty` dropping an empty message, headers and the content type.
- The middleware's warning log is kept only as the verifier's reason carried in the 401 outcome.
- Configuration loading is not modelled; the secret and lifetimes are a `JwtConfig` value.
- The handlers are not part of this model. They decode request bodies and parse path ids before calling the managers.
