/** The two request gates: the access gate in front of the book routes and
    the refresh gate in front of the token refresh route. */
module AuthMiddleware {
  import opened Errors
  import opened Text
  import opened Model
  import opened Services
  import opened Store
  import opened UserUseCase

  /** A gate either lets the request through with the identity it injects
      under `auth`, or stops it with an error. */
  datatype GateOutcome = Authorized(auth: Auth) | Rejected(kind: ErrorKind)

  /** The token a gate decodes: the header with every occurrence of the
      scheme marker (`"Bearer "` or `"Refresh "`) removed. */
  function TokenOf(header: string, marker: string): (t: string)
    ensures |t| <= |header|
    ensures !Contains(header, marker) ==> t == header
  {
    if !Contains(header, marker) then
      RemoveAllWithoutOccurrence(header, marker);
      RemoveAll(header, marker)
    else
      RemoveAll(header, marker)
  }

  function BearerTokenOf(header: string): (token: string) {
    TokenOf(header, "Bearer ")
  }

  function RefreshTokenOf(header: string): (token: string) {
    TokenOf(header, "Refresh ")
  }

  /** The access gate: the header must contain `"Bearer"` somewhere, the
      stripped token must decode under the access key, and Verify must
      confirm the identity; every failure is Unauthorized. */
  function AccessGate(header: string, decode: (string, string) -> Option<JwtClaims>,
                      users: Users, faults: Faults): (r: GateOutcome)
    ensures r.Rejected? ==> r.kind == Unauthorized
    ensures !Contains(header, "Bearer") ==> r.Rejected?
    ensures decode(BearerTokenOf(header), AccessTokenKey).None? ==> r.Rejected?
    ensures r.Authorized? <==>
              && Contains(header, "Bearer")
              && decode(BearerTokenOf(header), AccessTokenKey).Some?
              && var a := AuthOf(decode(BearerTokenOf(header), AccessTokenKey).value.user);
              && !faults.query && !faults.commit && HasUserId(users, a.id)
    ensures r.Authorized? ==> r.auth == AuthOf(decode(BearerTokenOf(header), AccessTokenKey).value.user)
  {
    if !Contains(header, "Bearer") then Rejected(Unauthorized)
    else
      match decode(BearerTokenOf(header), AccessTokenKey)
      case None => Rejected(Unauthorized)
      case Some(claims) =>
        var a := AuthOf(claims.user);
        if Verify(users, a, faults).Fail? then Rejected(Unauthorized)
        else Authorized(a)
  }

  /** The refresh gate: the header must contain `"Refresh"` somewhere and the
      stripped token must decode under the refresh key. It does not consult
      the users table. */
  function RefreshGate(header: string, decode: (string, string) -> Option<JwtClaims>): (r: GateOutcome)
    ensures r.Rejected? ==> r.kind == Unauthorized
    ensures r.Authorized? <==>
              Contains(header, "Refresh") && decode(RefreshTokenOf(header), RefreshTokenKey).Some?
    ensures r.Authorized? ==> r.auth == AuthOf(decode(RefreshTokenOf(header), RefreshTokenKey).value.user)
  {
    if !Contains(header, "Refresh") then Rejected(Unauthorized)
    else
      match decode(RefreshTokenOf(header), RefreshTokenKey)
      case None => Rejected(Unauthorized)
      case Some(claims) => Authorized(AuthOf(claims.user))
  }

  /** The scheme test is containment, not a prefix test: the scheme may
      appear anywhere in the header. */
  lemma SchemeMayAppearAnywhere(before: string, after: string, scheme: string)
    ensures Contains(before + scheme + after, scheme)
  {
    var h := before + scheme + after;
    assert h[|before|..|before| + |scheme|] == scheme;
    assert OccursAt(h, scheme, |before|);
    ContainsIffOccurs(h, scheme);
  }

  /** A header without the scheme is rejected before decoding, whatever the
      decoder, the table or the faults. */
  lemma MissingSchemeRejected(header: string, decode: (string, string) -> Option<JwtClaims>,
                              users: Users, faults: Faults)
    requires !Contains(header, "Bearer")
    ensures AccessGate(header, decode, users, faults) == Rejected(Unauthorized)
  {
  }

  /** The refresh gate's counterpart: a header without `"Refresh"` is
      rejected whatever the decoder. */
  lemma MissingRefreshSchemeRejected(header: string, decode: (string, string) -> Option<JwtClaims>)
    requires !Contains(header, "Refresh")
    ensures RefreshGate(header, decode) == Rejected(Unauthorized)
  {
  }

  /** A header of just `"Bearer"` passes the scheme test, and the string
      `"Bearer"` itself is what gets decoded. */
  lemma BareSchemeDecodedAsIs()
    ensures Contains("Bearer", "Bearer")
    ensures BearerTokenOf("Bearer") == "Bearer"
  {
  }

  /** A marker ending in a space followed by a token without spaces yields
      that token. */
  lemma TokenOfCompact(marker: string, t: string)
    requires |marker| > 0 && marker[|marker| - 1] == ' '
    requires ' ' !in t
    ensures TokenOf(marker + t, marker) == t
  {
    AbsentCharNoOccurrence(t, marker, |marker| - 1);
    RemoveAllLeadingPattern(marker, t);
  }

  lemma BearerTokenOfCompact(t: string)
    requires ' ' !in t
    ensures BearerTokenOf("Bearer " + t) == t
  {
    TokenOfCompact("Bearer ", t);
  }

  lemma RefreshTokenOfCompact(t: string)
    requires ' ' !in t
    ensures RefreshTokenOf("Refresh " + t) == t
  {
    TokenOfCompact("Refresh ", t);
  }

  /** When decoding fails, Verify is never reached: the outcome does not
      depend on the table or on the faults. */
  lemma DecodeFailureSkipsVerify(header: string, decode: (string, string) -> Option<JwtClaims>,
                                 users1: Users, faults1: Faults, users2: Users, faults2: Faults)
    requires decode(BearerTokenOf(header), AccessTokenKey).None?
    ensures AccessGate(header, decode, users1, faults1) == AccessGate(header, decode, users2, faults2)
  {
  }

  /** Every Verify error, whatever its kind, becomes Unauthorized, and an
      authorized identity always names an existing user. */
  lemma VerifyErrorsBecomeUnauthorized(header: string, decode: (string, string) -> Option<JwtClaims>,
                                       users: Users, faults: Faults)
    requires Contains(header, "Bearer")
    requires decode(BearerTokenOf(header), AccessTokenKey).Some?
    ensures var a := AuthOf(decode(BearerTokenOf(header), AccessTokenKey).value.user);
            var g := AccessGate(header, decode, users, faults);
            && (Verify(users, a, faults).Fail? <==> g == Rejected(Unauthorized))
            && (g.Authorized? ==> g.auth == a && HasUserId(users, a.id))
  {
  }
}
