/** End-to-end properties across the use cases and the gates: what one
    request leaves behind and what the next request can do with it. */
module Flows {
  import opened Errors
  import opened Entity
  import opened Model
  import opened Services
  import opened Store
  import opened UserUseCase
  import opened AuthMiddleware

  /** A user who has just registered can log in with the same email and
      password: the response identifies the new user, the access token
      expires seven days after login, and it is recorded on the user's row. */
  lemma RegisterThenLogin(users: Users, req: RegisterUserRequest, freshId: string, t1: int, t2: int,
                          crypto: Crypto)
    requires HashVerifies(crypto) && SigningAvailable(crypto)
    requires 0 < |req.email| <= 100
    requires Register(users, req, freshId, t1, crypto, NoFaults).result.Ok?
    ensures var r1 := Register(users, req, freshId, t1, crypto, NoFaults);
            var r2 := Login(r1.users, LoginUserRequest(req.email, req.password), t2, crypto, NoFaults);
            && r2.result.Ok?
            && r2.result.value.user.id == freshId
            && r2.result.value.tokens.expiresIn == t2 + 604800
            && freshId in r2.users
            && r2.users[freshId].token == r2.result.value.tokens.accessToken
  {
  }

  /** The access token a login hands out opens the access gate, as the
      logged-in user, for seven days; the refresh token opens the refresh
      gate as the same user for thirty days. */
  lemma LoginTokensOpenGates(users: Users, req: LoginUserRequest, now: int, crypto: Crypto,
                             faults: Faults, later: int)
    requires TokensCompact(crypto) && DecodesUnexpired(crypto, later)
    requires now <= later
    requires Login(users, req, now, crypto, faults).result.Ok?
    ensures var r := Login(users, req, now, crypto, faults);
            var u := FindByEmail(users, req.email).value;
            later < now + 604800 ==>
              AccessGate("Bearer " + r.result.value.tokens.accessToken, crypto.decode, r.users, NoFaults)
                == Authorized(Auth(u.id, u.email, u.name))
    ensures var r := Login(users, req, now, crypto, faults);
            var u := FindByEmail(users, req.email).value;
            later < now + 2592000 ==>
              RefreshGate("Refresh " + r.result.value.tokens.refreshToken, crypto.decode)
                == Authorized(Auth(u.id, u.email, u.name))
  {
    var r := Login(users, req, now, crypto, faults);
    var u := FindByEmail(users, req.email).value;
    var tokens := r.result.value.tokens;
    var claims := UserClaims(u.id, u.email, u.name);
    BearerTokenOfCompact(tokens.accessToken);
    RefreshTokenOfCompact(tokens.refreshToken);
    if later < now + 604800 {
      assert crypto.decode(tokens.accessToken, AccessTokenKey) == Some(AccessClaims(claims, now));
    }
    if later < now + 2592000 {
      assert crypto.decode(tokens.refreshToken, RefreshTokenKey) == Some(RefreshClaims(claims, now));
    }
    SchemeMayAppearAnywhere("", " " + tokens.accessToken, "Bearer");
    assert "" + "Bearer" + (" " + tokens.accessToken) == "Bearer " + tokens.accessToken;
    SchemeMayAppearAnywhere("", " " + tokens.refreshToken, "Refresh");
    assert "" + "Refresh" + (" " + tokens.refreshToken) == "Refresh " + tokens.refreshToken;
    assert r.users[u.id].id == u.id;
  }

  /** Refreshing reissues tokens for the same identity: the new refresh token
      opens the refresh gate as that identity for thirty days, and the new
      access token opens the access gate for seven days while the user
      exists. */
  lemma RefreshTokensRoundTrip(a: Auth, now: int, crypto: Crypto, later: int, users: Users)
    requires TokensCompact(crypto) && DecodesUnexpired(crypto, later)
    requires now <= later
    requires RefreshToken(a, now, crypto).Ok?
    ensures var tokens := RefreshToken(a, now, crypto).value;
            later < now + 2592000 ==>
              RefreshGate("Refresh " + tokens.refreshToken, crypto.decode) == Authorized(a)
    ensures var tokens := RefreshToken(a, now, crypto).value;
            later < now + 604800 && HasUserId(users, a.id) ==>
              AccessGate("Bearer " + tokens.accessToken, crypto.decode, users, NoFaults) == Authorized(a)
  {
    var tokens := RefreshToken(a, now, crypto).value;
    BearerTokenOfCompact(tokens.accessToken);
    RefreshTokenOfCompact(tokens.refreshToken);
    SchemeMayAppearAnywhere("", " " + tokens.accessToken, "Bearer");
    assert "" + "Bearer" + (" " + tokens.accessToken) == "Bearer " + tokens.accessToken;
    SchemeMayAppearAnywhere("", " " + tokens.refreshToken, "Refresh");
    assert "" + "Refresh" + (" " + tokens.refreshToken) == "Refresh " + tokens.refreshToken;
    ClaimsRoundTrip(a, ClaimsOf(a));
    if later < now + 2592000 {
      assert crypto.decode(tokens.refreshToken, RefreshTokenKey) == Some(RefreshClaims(ClaimsOf(a), now));
    }
    if later < now + 604800 {
      assert crypto.decode(tokens.accessToken, AccessTokenKey) == Some(AccessClaims(ClaimsOf(a), now));
    }
  }

  /** With separate secrets, an access token is refused by the refresh gate
      and a refresh token by the access gate. */
  lemma TokenClassesDoNotCross(a: Auth, now: int, crypto: Crypto, users: Users, faults: Faults)
    requires TokensCompact(crypto) && KeysSeparate(crypto)
    requires RefreshToken(a, now, crypto).Ok?
    ensures var tokens := RefreshToken(a, now, crypto).value;
            && RefreshGate("Refresh " + tokens.accessToken, crypto.decode) == Rejected(Unauthorized)
            && AccessGate("Bearer " + tokens.refreshToken, crypto.decode, users, faults) == Rejected(Unauthorized)
  {
    var tokens := RefreshToken(a, now, crypto).value;
    RefreshTokenOfCompact(tokens.accessToken);
    BearerTokenOfCompact(tokens.refreshToken);
    assert OtherKey(AccessTokenKey) == RefreshTokenKey;
    assert OtherKey(RefreshTokenKey) == AccessTokenKey;
    assert crypto.sign(AccessClaims(ClaimsOf(a), now), AccessTokenKey) == Some(tokens.accessToken);
    assert crypto.sign(RefreshClaims(ClaimsOf(a), now), RefreshTokenKey) == Some(tokens.refreshToken);
  }

  /** Registering a taken non-empty email again is a Conflict that leaves
      the table, and so the first user's row, as it was. */
  lemma SecondRegistrationConflicts(users: Users, req1: RegisterUserRequest, id1: string, t1: int,
                                    req2: RegisterUserRequest, id2: string, t2: int,
                                    crypto: Crypto, faults1: Faults)
    requires req1.email != "" && req2.email == req1.email
    requires RegisterRequestValid(req2)
    requires Register(users, req1, id1, t1, crypto, faults1).result.Ok?
    ensures var r1 := Register(users, req1, id1, t1, crypto, faults1);
            Register(r1.users, req2, id2, t2, crypto, NoFaults) == Response(Err(Conflict), r1.users)
  {
  }

  /** The empty email is never a conflict: two users can register with it. */
  lemma EmptyEmailRegistersTwice(crypto: Crypto)
    requires crypto.hash("secret").Some?
    ensures var req := RegisterUserRequest("", "secret", "Ann");
            var r1 := Register(map[], req, "u1", 1, crypto, NoFaults);
            var r2 := Register(r1.users, req, "u2", 2, crypto, NoFaults);
            && r1.result.Ok? && r2.result.Ok?
            && r2.users.Keys == {"u1", "u2"}
            && r2.users["u1"].email == r2.users["u2"].email == ""
  {
  }
}
