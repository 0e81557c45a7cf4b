/** Request and response shapes of the user API, the token claims, and the
    validation rules attached to the request fields. */
module Model {

  /** The identity a verified token carries, as injected into the request. */
  datatype Auth = Auth(id: string, email: string, name: string)

  /** The `User` map embedded in every token: `user_id`, `email`, `name`. */
  datatype UserClaims = UserClaims(userId: string, email: string, name: string)

  /** The claims of an issued token: registered expiry and issue instants
      (Unix seconds) and the user map. */
  datatype JwtClaims = JwtClaims(expiresAt: int, issuedAt: int, user: UserClaims)

  /** The token pair handed out by login and refresh; `expiresIn` is the
      access token's expiry instant in Unix seconds. */
  datatype BackendTokens = BackendTokens(accessToken: string, refreshToken: string, expiresIn: int)

  /** The public profile of a user. It has no password field. */
  datatype UserResponse = UserResponse(
    id: string,
    name: string,
    email: string,
    token: string,
    createdAt: int,
    updatedAt: int)

  datatype LoginUserResponse = LoginUserResponse(user: UserResponse, tokens: BackendTokens)

  datatype BookResponse = BookResponse(id: string, title: string, authorId: string)

  datatype RegisterUserRequest = RegisterUserRequest(email: string, password: string, name: string)

  datatype LoginUserRequest = LoginUserRequest(email: string, password: string)

  /** The identity as the claims of a decoded token describe it. */
  function AuthOf(u: UserClaims): (a: Auth) {
    Auth(u.userId, u.email, u.name)
  }

  /** The user map issued for an identity. */
  function ClaimsOf(a: Auth): (u: UserClaims) {
    UserClaims(a.id, a.email, a.name)
  }

  /** Claims and identities carry the same three strings. */
  lemma ClaimsRoundTrip(a: Auth, u: UserClaims)
    ensures AuthOf(ClaimsOf(a)) == a
    ensures ClaimsOf(AuthOf(u)) == u
  {
  }

  /** A `validate` struct-tag rule on a string field. `max` counts runes,
      which are the characters of a Dafny string. */
  datatype Rule = Required | Max(limit: nat)

  predicate Satisfies(s: string, rule: Rule) {
    match rule
    case Required => s != ""
    case Max(n) => |s| <= n
  }

  predicate SatisfiesAll(s: string, rules: seq<Rule>) {
    forall i :: 0 <= i < |rules| ==> Satisfies(s, rules[i])
  }

  /** `validate:"required,max=100"`. */
  const RequiredMax100: seq<Rule> := [Required, Max(100)]

  /** The validator accepts a register request: the email field has no tag,
      the password and name fields are `required,max=100`. */
  predicate RegisterRequestValid(req: RegisterUserRequest) {
    && SatisfiesAll(req.email, [])
    && SatisfiesAll(req.password, RequiredMax100)
    && SatisfiesAll(req.name, RequiredMax100)
  }

  /** The validator accepts a login request: email and password are both
      `required,max=100`. */
  predicate LoginRequestValid(req: LoginUserRequest) {
    && SatisfiesAll(req.email, RequiredMax100)
    && SatisfiesAll(req.password, RequiredMax100)
  }

  /** `Auth` carries no tags, so the validator accepts every identity. */
  predicate AuthValid(a: Auth) {
    && SatisfiesAll(a.id, [])
    && SatisfiesAll(a.email, [])
    && SatisfiesAll(a.name, [])
  }

  lemma RequiredMax100Means(s: string)
    ensures SatisfiesAll(s, RequiredMax100) <==> 0 < |s| <= 100
  {
    if SatisfiesAll(s, RequiredMax100) {
      assert Satisfies(s, RequiredMax100[0]) && Satisfies(s, RequiredMax100[1]);
    }
  }

  /** A register request is valid exactly when password and name are
      non-empty and at most 100 characters; the email, even empty, is free. */
  lemma RegisterRequestValidMeans(req: RegisterUserRequest)
    ensures RegisterRequestValid(req) <==> 0 < |req.password| <= 100 && 0 < |req.name| <= 100
  {
    RequiredMax100Means(req.password);
    RequiredMax100Means(req.name);
  }

  /** A login request is valid exactly when email and password are both
      non-empty and at most 100 characters. */
  lemma LoginRequestValidMeans(req: LoginUserRequest)
    ensures LoginRequestValid(req) <==> 0 < |req.email| <= 100 && 0 < |req.password| <= 100
  {
    RequiredMax100Means(req.email);
    RequiredMax100Means(req.password);
  }

  /** Validation of an identity never fails. */
  lemma AuthAlwaysValid(a: Auth)
    ensures AuthValid(a)
  {
  }
}
