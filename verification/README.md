# Authentication core of a Go clean-architecture CRUD backend, in Dafny

This project models the authentication core of a Fiber/GORM web backend:

- the **user use cases** `Verify`, `RefreshToken`, `Register` and `Login`;
- the two **request gates**: the access gate (`NewAuth`) in front of the book routes and the refresh gate (`NewRefreshToken`) in front of the token refresh route;
- the **request validators** (the `validate:"required,max=100"` struct tags);
- the **response converters** for users and books.

All of them are pure functions over immutable data.

The `users` table is a `map<string, User>` from primary key to row. A persistence-touching use case works on a copy `tx` of the table. It returns `Response(result, users)`: the copy on a successful commit, and the table it was given on every error. Which infrastructure calls fail during a request (a query, a write, the commit) is a parameter, `Faults`. The library calls are parameters too. A `Crypto` record holds four functions: bcrypt hash, bcrypt compare, JWT sign and JWT decode, the last two keyed by configuration entry name. The properties the core relies on are hypotheses (`HashVerifies`, `DecodesUnexpired`, `TokensCompact`, `KeysSeparate`, `SigningAvailable`) taken by the lemmas that need them. The fresh UUID and the clock (`now`, Unix seconds) are parameters.

Modules: `Errors` (error kinds, `Option`, `Result`, `Outcome`), `Text` (Go's `strings.Contains` and `strings.Replace(s, p, "", -1)`, and the code-point order on strings), `Entity`, `Model`, `Converter`, `Services`, `Store`, `UserUseCase`, `AuthMiddleware`, `Flows` (properties across several requests).

In these places the code behaves in ways its names suggest it would not; the model follows the code:

- **Scheme check.** The gates test that the header *contains* `"Bearer"` (or `"Refresh"`). They do not test for a prefix, so `"xBearer"` passes the check. The token is the header with every `"Bearer "` removed in one left-to-right pass. A bare `"Bearer"` header passes unchanged, and `"BBearer earer x"` yields `"Bearer x"`.
- **Validation of identities.** `model.Auth` has no validation tags, so `Verify` and `RefreshToken` never return BadRequest.
- **Verify errors.** Verify reports a missing user as NotFound. The access gate maps every Verify error to Unauthorized.
- **Login lookup errors.** Login returns Unauthorized when the email lookup fails for any reason, not only when no row matches.
- **Register lookup errors.** Register ignores the error of its email lookup. A failed lookup leaves the zero row, whose email is empty, so the conflict check passes and a duplicate email can be inserted.
- **Empty email.** The email of a register request has no rule. Registering twice with the empty email is never a conflict.

## Model

| member | source | states |
|---|---|---|
| Text.ContainsIffOccurs | internal/delivery/http/middleware/auth_middleware.go:18 | the scheme test finds the scheme exactly when it occurs at some index of the header |
| Text.RemoveAllLength | internal/delivery/http/middleware/auth_middleware.go:23 | the stripped header is shorter than the header by exactly |pat|·Count, the length of the whole non-overlapping occurrences found leftmost first |
| Text.RemoveAllSplitsAtFirst | internal/delivery/http/middleware/auth_middleware.go:23 | the pass copies everything before the first occurrence of the pattern, deletes that occurrence and continues after it; with RemoveAllWithoutOccurrence this determines the stripped header for every header |
| Text.RemoveAllWithoutOccurrence | internal/delivery/http/middleware/auth_middleware.go:23 | a header in which the pattern does not occur is passed to the decoder unchanged |
| Text.RemoveAllLeadingPattern | internal/delivery/http/middleware/auth_middleware.go:23 | the pattern followed by a string free of it strips back to that string |
| Text.RemoveAllCanLeavePattern | internal/delivery/http/middleware/auth_middleware.go:23 | the single pass can join characters into a new occurrence, which survives: "BBearer earer x" strips to "Bearer x" |
| Store.FindByEmail | internal/repository/user_repository.go:22-26 | None exactly when no row has the email; otherwise the row with that email whose primary key is least |
| Store.FindByEmailSole | internal/repository/user_repository.go:22-26 | when exactly one row has the email, that row is found |
| Store.FindByEmailUnique | internal/repository/user_repository.go:22-26 | when non-empty emails are unique, a non-empty email finds its own row |
| Store.CountById | internal/usecase/user_usecase.go:50-56 | the count is positive exactly when some row has the id |
| Store.HasUserIdKeyed | internal/usecase/user_usecase.go:50-56 | when rows are keyed by id, a row with the id exists exactly when the id is a key |
| Store.Create | internal/usecase/user_usecase.go:145-148 | the insert fails exactly on a duplicate primary key; otherwise it adds that one row and keeps every other row |
| Store.Save | internal/usecase/user_usecase.go:196-199 | the save rewrites the row under the user's id and keeps every other row |
| Model.RegisterRequestValidMeans | internal/model/user_model.go:16-20 | a register request is valid exactly when password and name are non-empty and at most 100 characters; the email is unconstrained, empty included |
| Model.LoginRequestValidMeans | internal/model/user_model.go:29-32 | a login request is valid exactly when email and password are non-empty and at most 100 characters |
| Model.AuthAlwaysValid | internal/model/auth.go:5-10 | an identity carries no validation rule, so its validation never fails |
| Model.ClaimsRoundTrip | internal/delivery/http/middleware/auth_middleware.go:32-37 | the user map issued for an identity reads back as the same identity, and conversely |
| Converter.UserToResponse | internal/model/converter/user_converter.go:9-17 | id, name and email are copied, the token is left empty even when the row has one, and both timestamps are copied in Unix seconds |
| Converter.UserToResponseHidesSecrets | internal/model/user_model.go:3-10 | the profile is the same whatever the row's password digest and token, so it never exposes the digest |
| Converter.UserToLoginResponse | internal/model/converter/user_converter.go:19-28 | the user part is the profile, the access and refresh tokens are the first and second tokens, and expires_in is the given instant; fewer than two tokens panic |
| Converter.BookToResponse | internal/model/converter/book_converter.go:16-22 | id, title and author id are copied unchanged |
| Converter.BooksToResponse | internal/model/converter/book_converter.go:8-14 | one response per book, in the same order; none for no books |
| Services.AccessClaims | internal/usecase/user_usecase.go:76-87 | access claims are issued now and expire at now + 604800 for the given user map |
| Services.RefreshClaims | internal/usecase/user_usecase.go:93-103 | refresh claims are issued now and expire at now + 2592000 for the given user map |
| UserUseCase.Verify | internal/usecase/user_usecase.go:41-66 | success exactly when no fault occurs and a row has the id; NotFound exactly when the count query fails or no row has the id; never BadRequest |
| UserUseCase.RefreshToken | internal/usecase/user_usecase.go:68-115 | fails only with Internal, exactly when a signing fails; otherwise both tokens sign the same identity, the access token expiring at now + 604800 (which is expires_in) and the refresh token at now + 2592000 |
| UserUseCase.NewUser | internal/usecase/user_usecase.go:138-143 | the new row has the fresh id, the digest of the password, the request's email and name, an empty token and creation instant now |
| UserUseCase.RegisterConflictsMeans | internal/usecase/user_usecase.go:126-130 | a registration conflicts exactly when the lookup succeeds, the email is non-empty and some row has it |
| UserUseCase.Register | internal/usecase/user_usecase.go:117-156 | BadRequest exactly on invalid input and Conflict exactly on a taken non-empty email; Internal exactly when hashing, the insert or the commit fails, and no other error kind occurs; any error keeps the table; success inserts the new row under the fresh id and returns its profile without a password |
| UserUseCase.LoggedIn | internal/usecase/user_usecase.go:195-196 | the saved row differs from the matched row only in its token, now the access token, and its update instant |
| UserUseCase.Login | internal/usecase/user_usecase.go:158-225 | BadRequest exactly on invalid input; Unauthorized alike for a failed lookup, an unknown email and a wrong password; Internal exactly when the credentials match but a signing, the write or the commit fails; success exactly when the credentials match, both tokens sign and neither the write nor the commit fails; any error keeps the table; success issues both tokens for the matched user, with expires_in = now + 604800, and writes the access token onto that user's row |
| UserUseCase.RegisterAddsOneUser | internal/usecase/user_usecase.go:138-155 | a successful registration adds exactly one row and leaves every other row as it was |
| UserUseCase.RegisterKeepsKeyedById | internal/usecase/user_usecase.go:138-148 | registration keeps every row stored under its own id |
| UserUseCase.RegisterKeepsEmailsUnique | internal/usecase/user_usecase.go:126-130 | when the lookup succeeds, registration keeps non-empty emails unique |
| UserUseCase.RegisterLookupFaultAdmitsDuplicate | internal/usecase/user_usecase.go:126-130 | when the lookup fails, a second row with a taken non-empty email is inserted |
| UserUseCase.LoginChangesOnlyToken | internal/usecase/user_usecase.go:195-199 | a successful login keeps the set of rows and every other row, and changes only the token and update instant of the matched row |
| UserUseCase.LoginKeepsKeyedById | internal/usecase/user_usecase.go:195-199 | login keeps every row stored under its own id |
| UserUseCase.LoginKeepsEmailsUnique | internal/usecase/user_usecase.go:195-199 | login keeps non-empty emails unique |
| AuthMiddleware.TokenOf | internal/delivery/http/middleware/auth_middleware.go:23 | the decoded token is no longer than the header and equals it when the header holds no scheme marker |
| AuthMiddleware.TokenOfCompact | internal/delivery/http/middleware/auth_middleware.go:62 | a marker ending in a space followed by a token without spaces yields that token |
| AuthMiddleware.AccessGate | internal/delivery/http/middleware/auth_middleware.go:16-48 | every rejection is Unauthorized; authorized exactly when the header contains "Bearer", the stripped token decodes under the access key and the claimed user exists with no fault, injecting the claims' user_id, email and name |
| AuthMiddleware.RefreshGate | internal/delivery/http/middleware/auth_middleware.go:56-79 | every rejection is Unauthorized; authorized exactly when the header contains "Refresh" and the stripped token decodes under the refresh key, injecting the claims' identity without consulting the table |
| AuthMiddleware.SchemeMayAppearAnywhere | internal/delivery/http/middleware/auth_middleware.go:18-21 | the scheme test passes wherever the scheme appears in the header, not only at its start |
| AuthMiddleware.MissingSchemeRejected | internal/delivery/http/middleware/auth_middleware.go:18-21 | a header without "Bearer" is rejected by the access gate as Unauthorized whatever the decoder, table or faults |
| AuthMiddleware.MissingRefreshSchemeRejected | internal/delivery/http/middleware/auth_middleware.go:57-61 | a header without "Refresh" is rejected by the refresh gate as Unauthorized whatever the decoder |
| AuthMiddleware.BareSchemeDecodedAsIs | internal/delivery/http/middleware/auth_middleware.go:18-23 | the header "Bearer" passes the scheme test and "Bearer" itself is decoded |
| AuthMiddleware.BearerTokenOfCompact | internal/delivery/http/middleware/auth_middleware.go:23 | "Bearer " followed by a token without spaces yields that token |
| AuthMiddleware.RefreshTokenOfCompact | internal/delivery/http/middleware/auth_middleware.go:62 | "Refresh " followed by a token without spaces yields that token |
| AuthMiddleware.DecodeFailureSkipsVerify | internal/delivery/http/middleware/auth_middleware.go:26-30 | when decoding fails the outcome is the same for every table and fault set, so Verify is not reached |
| AuthMiddleware.VerifyErrorsBecomeUnauthorized | internal/delivery/http/middleware/auth_middleware.go:39-43 | the gate rejects with Unauthorized exactly when Verify fails, whatever its error; an admitted identity names an existing user |
| Flows.RegisterThenLogin | internal/usecase/user_usecase.go:132-199 | right after registering, logging in with the same email and password succeeds for the new user and records its access token |
| Flows.LoginTokensOpenGates | internal/usecase/user_usecase.go:177-224 | a login's access token opens the access gate as the logged-in user for 7 days, and its refresh token the refresh gate for 30 days |
| Flows.RefreshTokensRoundTrip | internal/usecase/user_usecase.go:76-114 | refreshed tokens open the refresh gate for 30 days and, while the user exists, the access gate for 7 days, as the same identity |
| Flows.TokenClassesDoNotCross | internal/delivery/http/middleware/auth_middleware.go:62-70 | with separate secrets an access token is refused by the refresh gate and a refresh token by the access gate |
| Flows.SecondRegistrationConflicts | internal/usecase/user_usecase.go:126-130 | registering a taken non-empty email again is a Conflict that leaves the table, the first user's row included, unchanged |
| Flows.EmptyEmailRegistersTwice | internal/usecase/user_usecase.go:126-130 | two registrations with the empty email both succeed |

## Left out

- JWT signing and decoding (`pkg/jwt.go`, HS256 per RFC 7515 and RFC 7519) are abstract functions keyed by the configuration entry name. The signature, the algorithm check, the expiry check and the issued-at check (a token issued after the instant of the request is refused) are hypotheses about them (`DecodesUnexpired`, `KeysSeparate`, `TokensCompact`), not models.
- bcrypt is an abstract `hash` that may fail and an abstract `compare`, with `HashVerifies` as the only hypothesis. Cost factor, salt and bcrypt's 72-byte input limit are not modelled.
- GORM, MySQL and transaction mechanics are replaced by a map and commit-or-discard. The generic repository behind `CountById`, `Create` and `Update` is not part of this model. These calls are modelled by their observable effect: count rows by id, insert unless the key exists, write the whole row by key.
- Requests are modelled one at a time, each seeing the table the previous one committed. UserUseCase.RegisterKeepsEmailsUnique holds only for such sequential requests: the schema migration creates no unique index on the email column (`internal/config/app.go:28`, `internal/config/gorm.go:50-54`, `internal/entity/user_entity.go:8`), so two concurrent registrations of one email can both pass the lookup and both commit (`internal/usecase/user_usecase.go:126-148`).
- UserUseCase.NewUser: creation and update instants equal `now` because the ORM's `autoCreateTime` and `autoUpdateTime` tags (`internal/entity/user_entity.go:11-12`) fill them on insert; the model sets them directly, and the registration response (`internal/usecase/user_usecase.go:155`) reports the same instants.
- Store.FindByEmail: email equality is exact. A case-insensitive database collation is not modelled. "First by primary key" uses code-point order, not the database's collation order.
- UserUseCase.LoggedIn: it assumes the ORM's `autoUpdateTime` sets the row's update instant to `now` when the row is saved.
- The several `time.Now()` calls of one request are assumed to read the same second. Token times are whole seconds.
- `now + 604800` and `now + 2592000` are unbounded integers. int64 overflow is not modelled.
- Converter.UserToLoginResponse: indexing a missing second token panics in Go. Here it is the function's precondition.
- Go type assertions on malformed claims panic in the gates. Decoded claims are a typed record here, so a malformed token is a decode failure.
- Converter.BooksToResponse: Go returns a nil slice for no books, which JSON encodes as `null`, not `[]`. An empty sequence stands for both.
- Token freshness between two refreshes is not stated. Signing is an abstract function, so two refreshes of one identity in the same second produce the same claims and hence the same tokens.
- Logging, request contexts and cancellation, Fiber wiring (`ctx.Locals`, `ctx.Next`, the error handler), controllers, routes, configuration, `main` and the book use case are framework plumbing with no authentication decision.
