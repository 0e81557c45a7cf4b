/** The library calls the authentication core makes, as parameters: bcrypt
    hashing and comparison, and JWT signing and decoding keyed by the name of
    the configuration entry that holds the secret. The properties the core
    relies on are stated as predicates that lemmas take as hypotheses. */
module Services {
  import opened Errors
  import opened Model

  /** Configuration entries holding the access and refresh signing secrets. */
  const AccessTokenKey: string := "jwt.accessToken"
  const RefreshTokenKey: string := "jwt.refreshToken"

  /** Token lifetimes in seconds: seven days and thirty days. */
  const AccessTokenLifetime: int := 7 * 24 * 3600
  const RefreshTokenLifetime: int := 30 * 24 * 3600

  /** The cryptographic collaborators of one request.
      - `hash(p)`: bcrypt digest of `p`, or None when hashing fails;
      - `compare(digest, p)`: bcrypt accepts `p` against `digest`;
      - `sign(claims, key)`: the HS256 token for `claims` under the secret
        configured at `key`, or None when signing fails;
      - `decode(token, key)`: the claims of `token` when its signature under
        the secret at `key` is valid, it has not expired and it was not
        issued after the instant of the request, None otherwise. */
  datatype Crypto = Crypto(
    hash: string -> Option<string>,
    compare: (string, string) -> bool,
    sign: (JwtClaims, string) -> Option<string>,
    decode: (string, string) -> Option<JwtClaims>)

  /** bcrypt accepts a password against its own digest. */
  ghost predicate HashVerifies(c: Crypto) {
    forall p :: c.hash(p).Some? ==> c.compare(c.hash(p).value, p)
  }

  /** Signing succeeds for every claim set under both keys. */
  ghost predicate SigningAvailable(c: Crypto) {
    forall claims, key :: c.sign(claims, key).Some?
  }

  /** Signed tokens use the compact serialization, which has no spaces. */
  ghost predicate TokensCompact(c: Crypto) {
    forall claims, key :: c.sign(claims, key).Some? ==> ' ' !in c.sign(claims, key).value
  }

  /** Decoding at instant `now` returns the claims of every token signed
      under the same key that was issued no later than `now` and has not
      expired by then (the issued-at and expiry checks of the claims). */
  ghost predicate DecodesUnexpired(c: Crypto, now: int) {
    forall claims, key ::
      c.sign(claims, key).Some? && claims.issuedAt <= now && now < claims.expiresAt ==>
        c.decode(c.sign(claims, key).value, key) == Some(claims)
  }

  /** A token signed under one key never decodes under the other. The two
      secrets come from distinct configuration entries, `AccessTokenKey` and
      `RefreshTokenKey`, configured independently. */
  ghost predicate KeysSeparate(c: Crypto) {
    forall claims, key ::
      c.sign(claims, key).Some? && (key == AccessTokenKey || key == RefreshTokenKey) ==>
        c.decode(c.sign(claims, key).value, OtherKey(key)).None?
  }

  function OtherKey(key: string): (other: string) {
    if key == AccessTokenKey then RefreshTokenKey else AccessTokenKey
  }

  /** The claims of an access token issued at `now` for `user`. */
  function AccessClaims(user: UserClaims, now: int): (c: JwtClaims)
    ensures c.issuedAt == now && c.expiresAt == now + 604800 && c.user == user
  {
    JwtClaims(now + AccessTokenLifetime, now, user)
  }

  /** The claims of a refresh token issued at `now` for `user`. */
  function RefreshClaims(user: UserClaims, now: int): (c: JwtClaims)
    ensures c.issuedAt == now && c.expiresAt == now + 2592000 && c.user == user
  {
    JwtClaims(now + RefreshTokenLifetime, now, user)
  }
}
