/** The passport JWT strategy (src/passport/passport-jwt-strategy.ts): where the access
    token is read from, how it is verified, and the user lookup that follows. */
module JwtStrategy {
  import opened Wrappers
  import opened Crypto
  import opened UserModel

  const AccessCookie: string := "accessToken"

  /** cookieExtractor: the accessToken cookie, or null when it is absent or empty. */
  function CookieExtractor(cookies: map<string, string>): (r: Option<string>)
    ensures r.Some? ==> AccessCookie in cookies && r.value == cookies[AccessCookie] && r.value != ""
  {
    if AccessCookie in cookies && cookies[AccessCookie] != "" then Some(cookies[AccessCookie]) else None
  }

  /** The token is read from the accessToken cookie and from nowhere else: setting any
      other cookie never changes what the extractor returns. */
  lemma CookieExtractorReadsOnlyAccessToken(cookies: map<string, string>, name: string, value: string)
    requires name != AccessCookie
    ensures CookieExtractor(cookies[name := value]) == CookieExtractor(cookies)
    ensures CookieExtractor(cookies[AccessCookie := value]) == if value == "" then None else Some(value)
  {
  }

  /** What the strategy decides: passport answers 401 when no token was extracted or it
      fails verification; the verify callback fails with a message, or authenticates. */
  datatype Outcome =
    | NoToken
    | BadToken
    | Fail(message: string)
    | Authenticated(user: User)

  const UserNotFound: string := "Invalid token or user not found."
  const NotVerified: string := "Account not verified."

  /** The payload passport-jwt hands to the verify callback: the extracted token, verified
      with the access secret and HS256 only, or nothing. */
  function VerifiedClaims(prims: Primitives, config: TokenConfig, cookies: map<string, string>, now: int): Option<Claims>
  {
    match CookieExtractor(cookies)
    case None => None
    case Some(token) => prims.jwtVerify(token, config.accessSecret, OnlyHS256, IssuedAt(now))
  }

  /** The strategy at clock time now (ms): verify with the access secret, accepting HS256
      only, then look the payload's _id up and require a verified account. */
  function Authenticate(users: map<UserId, User>, prims: Primitives, config: TokenConfig,
                        cookies: map<string, string>, now: int): (r: Outcome)
    ensures r.Authenticated? ==> r.user.isVerified && r.user.password.None?
    ensures r.Authenticated? ==>
      var c := VerifiedClaims(prims, config, cookies, now);
      c.Some? && c.value.id.Some? && c.value.id.value in users && r.user == WithoutPassword(users[c.value.id.value])
    ensures CookieExtractor(cookies).None? ==> r == NoToken
    ensures VerifiedClaims(prims, config, cookies, now).None? <==> r == NoToken || r == BadToken
  {
    match CookieExtractor(cookies)
    case None => NoToken
    case Some(token) =>
      match prims.jwtVerify(token, config.accessSecret, OnlyHS256, IssuedAt(now))
      case None => BadToken
      case Some(claims) =>
        if claims.id.None? || claims.id.value !in users then Fail(UserNotFound)
        else if !users[claims.id.value].isVerified then Fail(NotVerified)
        else Authenticated(WithoutPassword(users[claims.id.value]))
  }

  /** Only the access secret and HS256 verification enter the decision: two configurations
      with the same access secret, and two verifiers that agree on HS256, decide alike. */
  lemma AuthenticateUsesAccessSecretAndHS256(users: map<UserId, User>, p1: Primitives, p2: Primitives,
                                             c1: TokenConfig, c2: TokenConfig, cookies: map<string, string>, now: int)
    requires c1.accessSecret == c2.accessSecret
    requires forall t, s, i :: p1.jwtVerify(t, s, OnlyHS256, i) == p2.jwtVerify(t, s, OnlyHS256, i)
    ensures Authenticate(users, p1, c1, cookies, now) == Authenticate(users, p2, c2, cookies, now)
  {
  }

  /** A token that verifies but names no stored user, or no _id at all, is refused with
      the not-found message. */
  lemma UnknownUserRefused(users: map<UserId, User>, prims: Primitives, config: TokenConfig,
                           cookies: map<string, string>, now: int)
    requires VerifiedClaims(prims, config, cookies, now).Some?
    requires var c := VerifiedClaims(prims, config, cookies, now).value; c.id.None? || c.id.value !in users
    ensures Authenticate(users, prims, config, cookies, now) == Fail(UserNotFound)
  {
  }

  /** A token that verifies as a known but unverified user's is still refused. */
  lemma UnverifiedRefused(users: map<UserId, User>, prims: Primitives, config: TokenConfig,
                          cookies: map<string, string>, now: int, id: UserId)
    requires CookieExtractor(cookies).Some?
    requires prims.jwtVerify(CookieExtractor(cookies).value, config.accessSecret, OnlyHS256, IssuedAt(now)).Some?
    requires prims.jwtVerify(CookieExtractor(cookies).value, config.accessSecret, OnlyHS256, IssuedAt(now)).value.id == Some(id)
    requires id in users && !users[id].isVerified
    ensures Authenticate(users, prims, config, cookies, now) == Fail(NotVerified)
  {
  }

  /** An access token signed for a verified user opens the strategy in the second it was
      issued, and the user it yields is the stored record without its password. */
  lemma {:induction false} AccessTokenAuthenticates(users: map<UserId, User>, prims: Primitives, config: TokenConfig,
                                                   cookies: map<string, string>, now: int, u: User)
    requires JwtSound(prims)
    requires u.id in users && users[u.id] == u && u.isVerified
    requires GenerateAccessToken(prims, config, u, now).Ok?
    requires AccessCookie in cookies && cookies[AccessCookie] == GenerateAccessToken(prims, config, u, now).value
    ensures Authenticate(users, prims, config, cookies, now) == Authenticated(WithoutPassword(u))
  {
    var signed := prims.jwtSign(AccessPayload(u), config.accessSecret, config.accessExpiry, IssuedAt(now));
    assert signed.Some? && cookies[AccessCookie] == signed.value;
    assert prims.jwtVerify(signed.value, config.accessSecret, OnlyHS256, IssuedAt(now)) == Some(AccessPayload(u));
  }
}
