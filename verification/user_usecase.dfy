/** The user use cases: Verify, RefreshToken, Register and Login.

    Each persistence-touching operation works on a copy `tx` of the users
    table and publishes it only when the commit succeeds; every error return
    hands back the table it was given. */
module UserUseCase {
  import opened Errors
  import opened Entity
  import opened Model
  import opened Services
  import opened Store
  import opened Converter

  /** A result together with the users table after the request. */
  datatype Response<+T> = Response(result: Result<T>, users: Users)

  /** Confirms that the identity of a verified token still names a user. The
      table is only read. */
  function Verify(users: Users, a: Auth, faults: Faults): (r: Outcome)
    ensures r.Pass? <==> !faults.query && HasUserId(users, a.id) && !faults.commit
    ensures r == Fail(NotFound) <==> faults.query || !HasUserId(users, a.id)
    ensures r.Fail? ==> r.kind == NotFound || r.kind == Internal
  {
    if !AuthValid(a) then Fail(BadRequest)
    else if faults.query then Fail(NotFound)
    else if !(CountById(users, a.id) > 0) then Fail(NotFound)
    else if faults.commit then Fail(Internal)
    else Pass
  }

  /** Issues a fresh access and refresh token for the identity of a refresh
      token. No table is read or written. */
  function RefreshToken(a: Auth, now: int, crypto: Crypto): (r: Result<BackendTokens>)
    ensures r.Err? ==> r.kind == Internal
    ensures r.Ok? <==>
              crypto.sign(AccessClaims(ClaimsOf(a), now), AccessTokenKey).Some?
              && crypto.sign(RefreshClaims(ClaimsOf(a), now), RefreshTokenKey).Some?
    ensures r.Ok? ==> r.value.expiresIn == now + 604800
    ensures r.Ok? ==>
              crypto.sign(JwtClaims(now + 604800, now, ClaimsOf(a)), AccessTokenKey) == Some(r.value.accessToken)
    ensures r.Ok? ==>
              crypto.sign(JwtClaims(now + 2592000, now, ClaimsOf(a)), RefreshTokenKey) == Some(r.value.refreshToken)
  {
    if !AuthValid(a) then Err(BadRequest)
    else
      var expireTime := now + AccessTokenLifetime;
      match crypto.sign(AccessClaims(ClaimsOf(a), now), AccessTokenKey)
      case None => Err(Internal)
      case Some(accessToken) =>
        match crypto.sign(RefreshClaims(ClaimsOf(a), now), RefreshTokenKey)
        case None => Err(Internal)
        case Some(refreshToken) => Ok(BackendTokens(accessToken, refreshToken, expireTime))
  }

  /** The row Register inserts for a request, given the digest of its
      password. */
  function NewUser(req: RegisterUserRequest, id: string, digest: string, now: int): (u: User)
    ensures u.id == id && u.password == digest && u.email == req.email && u.name == req.name
    ensures u.token == "" && u.createdAt == now && u.updatedAt == now
  {
    User(id, digest, req.email, req.name, "", now, now)
  }

  /** The registration conflicts with an existing row. The lookup's error is
      ignored: a failed lookup leaves the zero row, whose email is empty. */
  predicate RegisterConflicts(users: Users, req: RegisterUserRequest, faults: Faults) {
    var found := if faults.query then None else FindByEmail(users, req.email);
    found.Some? && found.value.email != ""
  }

  lemma RegisterConflictsMeans(users: Users, req: RegisterUserRequest, faults: Faults)
    ensures RegisterConflicts(users, req, faults) <==>
              !faults.query && req.email != "" && EmailTaken(users, req.email)
  {
  }

  /** Creates a user with the fresh id `freshId` at instant `now`. */
  function Register(users: Users, req: RegisterUserRequest, freshId: string, now: int,
                    crypto: Crypto, faults: Faults): (r: Response<UserResponse>)
    ensures r.result.Err? ==> r.users == users
    ensures r.result == Err(BadRequest) <==> !RegisterRequestValid(req)
    ensures r.result == Err(Conflict) <==>
              RegisterRequestValid(req) && !faults.query && req.email != "" && EmailTaken(users, req.email)
    ensures r.result.Ok? <==>
              RegisterRequestValid(req) && !RegisterConflicts(users, req, faults)
              && crypto.hash(req.password).Some? && freshId !in users
              && !faults.write && !faults.commit
    ensures r.result == Err(Internal) <==>
              RegisterRequestValid(req) && !RegisterConflicts(users, req, faults)
              && !(crypto.hash(req.password).Some? && freshId !in users
                   && !faults.write && !faults.commit)
    ensures r.result.Err? ==> r.result.kind in {BadRequest, Conflict, Internal}
    ensures r.result.Ok? ==>
              r.users == users[freshId := User(freshId, crypto.hash(req.password).value, req.email, req.name, "", now, now)]
    ensures r.result.Ok? ==> r.result.value == UserResponse(freshId, req.name, req.email, "", now, now)
  {
    RegisterConflictsMeans(users, req, faults);
    if !RegisterRequestValid(req) then Response(Err(BadRequest), users)
    else if RegisterConflicts(users, req, faults) then Response(Err(Conflict), users)
    else
      match crypto.hash(req.password)
      case None => Response(Err(Internal), users)
      case Some(digest) =>
        var user := NewUser(req, freshId, digest, now);
        var created := if faults.write then None else Create(users, user);
        match created
        case None => Response(Err(Internal), users)
        case Some(tx) =>
          if faults.commit then Response(Err(Internal), users)
          else Response(Ok(UserToResponse(user)), tx)
  }

  /** The credentials match a row: its email is found and bcrypt accepts the
      password against its digest. */
  predicate CredentialsMatch(users: Users, req: LoginUserRequest, crypto: Crypto) {
    var found := FindByEmail(users, req.email);
    found.Some? && crypto.compare(found.value.password, req.password)
  }

  /** Both tokens of a login by `u` at `now` can be signed. */
  predicate LoginTokensSigned(u: User, now: int, crypto: Crypto) {
    var claims := UserClaims(u.id, u.email, u.name);
    crypto.sign(AccessClaims(claims, now), AccessTokenKey).Some?
    && crypto.sign(RefreshClaims(claims, now), RefreshTokenKey).Some?
  }

  /** The row login writes: the matched user with the new access token, its
      update instant set by the ORM. */
  function LoggedIn(u: User, accessToken: string, now: int): (v: User)
    ensures v.id == u.id && v.password == u.password && v.email == u.email && v.name == u.name
    ensures v.createdAt == u.createdAt
    ensures v.token == accessToken && v.updatedAt == now
  {
    u.(token := accessToken, updatedAt := now)
  }

  /** Checks credentials, issues a token pair, and records the access token
      on the user's row. */
  function Login(users: Users, req: LoginUserRequest, now: int, crypto: Crypto,
                 faults: Faults): (r: Response<LoginUserResponse>)
    ensures r.result.Err? ==> r.users == users
    ensures r.result == Err(BadRequest) <==> !LoginRequestValid(req)
    ensures r.result == Err(Unauthorized) <==>
              LoginRequestValid(req) && (faults.query || !CredentialsMatch(users, req, crypto))
    ensures r.result.Err? ==> r.result.kind in {BadRequest, Unauthorized, Internal}
    ensures r.result.Ok? <==>
              && LoginRequestValid(req) && !faults.query && CredentialsMatch(users, req, crypto)
              && LoginTokensSigned(FindByEmail(users, req.email).value, now, crypto)
              && !faults.write && !faults.commit
    ensures r.result == Err(Internal) <==>
              && LoginRequestValid(req) && !faults.query && CredentialsMatch(users, req, crypto)
              && !(LoginTokensSigned(FindByEmail(users, req.email).value, now, crypto)
                   && !faults.write && !faults.commit)
    ensures r.result.Ok? ==>
              && LoginRequestValid(req) && !faults.query && CredentialsMatch(users, req, crypto)
              && var u := FindByEmail(users, req.email).value;
              && var tokens := r.result.value.tokens;
              && tokens.expiresIn == now + 604800
              && crypto.sign(JwtClaims(now + 604800, now, UserClaims(u.id, u.email, u.name)), AccessTokenKey)
                 == Some(tokens.accessToken)
              && crypto.sign(JwtClaims(now + 2592000, now, UserClaims(u.id, u.email, u.name)), RefreshTokenKey)
                 == Some(tokens.refreshToken)
              && r.users == users[u.id := u.(token := tokens.accessToken, updatedAt := now)]
              && r.result.value.user == UserResponse(u.id, u.name, u.email, "", u.createdAt, now)
  {
    if !LoginRequestValid(req) then Response(Err(BadRequest), users)
    else if faults.query then Response(Err(Unauthorized), users)
    else
      match FindByEmail(users, req.email)
      case None => Response(Err(Unauthorized), users)
      case Some(user) =>
        if !crypto.compare(user.password, req.password) then Response(Err(Unauthorized), users)
        else
          var claims := ClaimsOf(Auth(user.id, user.email, user.name));
          var expireTime := now + AccessTokenLifetime;
          match crypto.sign(AccessClaims(claims, now), AccessTokenKey)
          case None => Response(Err(Internal), users)
          case Some(accessToken) =>
            var saved := LoggedIn(user, accessToken, now);
            if faults.write then Response(Err(Internal), users)
            else
              var tx := Save(users, saved);
              match crypto.sign(RefreshClaims(claims, now), RefreshTokenKey)
              case None => Response(Err(Internal), users)
              case Some(refreshToken) =>
                if faults.commit then Response(Err(Internal), users)
                else Response(Ok(UserToLoginResponse(saved, expireTime, [accessToken, refreshToken])), tx)
  }

  /** A successful registration adds exactly one row, under the fresh id,
      and leaves every other row as it was. */
  lemma RegisterAddsOneUser(users: Users, req: RegisterUserRequest, freshId: string, now: int,
                            crypto: Crypto, faults: Faults)
    requires Register(users, req, freshId, now, crypto, faults).result.Ok?
    ensures var r := Register(users, req, freshId, now, crypto, faults);
            && r.users.Keys == users.Keys + {freshId} && freshId !in users
            && |r.users| == |users| + 1
            && forall k :: k in users ==> r.users[k] == users[k]
  {
  }

  /** Registration keeps every row stored under its own id. */
  lemma RegisterKeepsKeyedById(users: Users, req: RegisterUserRequest, freshId: string, now: int,
                               crypto: Crypto, faults: Faults)
    requires KeyedById(users)
    ensures KeyedById(Register(users, req, freshId, now, crypto, faults).users)
  {
  }

  /** When the email lookup succeeds, registration keeps non-empty emails
      unique. */
  lemma RegisterKeepsEmailsUnique(users: Users, req: RegisterUserRequest, freshId: string,
                                  now: int, crypto: Crypto, faults: Faults)
    requires EmailsUnique(users)
    requires !faults.query
    ensures EmailsUnique(Register(users, req, freshId, now, crypto, faults).users)
  {
  }

  /** A failed email lookup skips the conflict check: a second row with an
      existing non-empty email is inserted. */
  lemma RegisterLookupFaultAdmitsDuplicate(crypto: Crypto)
    requires crypto.hash("secret").Some?
    ensures var users := map["u1" := User("u1", "d", "a@x.com", "Ann", "", 0, 0)];
            var r := Register(users, RegisterUserRequest("a@x.com", "secret", "Bob"), "u2", 5,
                              crypto, Faults(true, false, false));
            && r.result.Ok?
            && !EmailsUnique(r.users)
  {
    var users := map["u1" := User("u1", "d", "a@x.com", "Ann", "", 0, 0)];
    var r := Register(users, RegisterUserRequest("a@x.com", "secret", "Bob"), "u2", 5,
                      crypto, Faults(true, false, false));
    assert RegisterRequestValid(RegisterUserRequest("a@x.com", "secret", "Bob"));
    assert r.users["u1"].email == r.users["u2"].email;
  }

  /** A successful login rewrites only the matched user's row, and in it
      only the token and the update instant. */
  lemma LoginChangesOnlyToken(users: Users, req: LoginUserRequest, now: int, crypto: Crypto, faults: Faults)
    requires KeyedById(users)
    requires Login(users, req, now, crypto, faults).result.Ok?
    ensures var r := Login(users, req, now, crypto, faults);
            var u := FindByEmail(users, req.email).value;
            && u.id in users && users[u.id] == u
            && r.users.Keys == users.Keys
            && (forall k :: k in users && k != u.id ==> r.users[k] == users[k])
            && r.users[u.id] == LoggedIn(u, r.result.value.tokens.accessToken, now)
  {
  }

  /** Login keeps every row stored under its own id. */
  lemma LoginKeepsKeyedById(users: Users, req: LoginUserRequest, now: int, crypto: Crypto, faults: Faults)
    requires KeyedById(users)
    ensures KeyedById(Login(users, req, now, crypto, faults).users)
  {
  }

  /** Login never changes an email, so non-empty emails stay unique. */
  lemma LoginKeepsEmailsUnique(users: Users, req: LoginUserRequest, now: int, crypto: Crypto, faults: Faults)
    requires KeyedById(users) && EmailsUnique(users)
    ensures EmailsUnique(Login(users, req, now, crypto, faults).users)
  {
  }
}
