/** The foreign cryptography the core calls: bcrypt for passwords and jsonwebtoken for
    JSON Web Tokens (RFC 7519, signed with HMAC SHA-256 as in section 3.2 of RFC 7518).
    Their algorithms are not modelled: each is a function value handed to the model,
    about which nothing is known except what a lemma states as its hypothesis. */
module Crypto {
  import opened Wrappers
  import opened Text

  /** The ObjectId of a user record. */
  type UserId = nat

  /** A token payload. A field that is None is left out of the JSON object (an
      `undefined` property is not serialised). */
  datatype Claims = Claims(id: Option<UserId>, email: Option<string>, userName: Option<string>)

  /** The signature algorithms a verification accepts: passport-jwt is configured with
      ['HS256'] only; a bare jwt.verify with a string secret accepts the library's
      HMAC defaults. */
  datatype AlgorithmPolicy = OnlyHS256 | LibraryDefault

  datatype Primitives = Primitives(
    /** bcrypt.hash(raw, salt) where salt = bcrypt.genSalt(rounds) drew these random bytes */
    bcryptHash: (string, nat, seq<Byte>) -> string,
    /** bcrypt.compare(raw, storedHash) */
    bcryptCompare: (string, string) -> bool,
    /** jwt.sign(payload, secret, { expiresIn }) issued at the given second; None when it throws */
    jwtSign: (Claims, string, string, int) -> Option<string>,
    /** jwt.verify(token, secret) at the given second; None when it throws (missing,
        malformed, badly signed or expired token) */
    jwtVerify: (string, string, AlgorithmPolicy, int) -> Option<Claims>
  )

  /** The token settings of the environment configuration; an absent secret is "". */
  datatype TokenConfig = TokenConfig(
    accessSecret: string,
    accessExpiry: string,
    refreshSecret: string,
    refreshExpiry: string)

  /** Defaults of ACCESS_TOKEN_EXPIRY and REFRESH_TOKEN_EXPIRY. */
  const DefaultAccessExpiry: string := "15m"
  const DefaultRefreshExpiry: string := "7d"

  /** The hypothesis under which jsonwebtoken does its job: a token it signed is non-empty
      and, presented with the same secret in the second it was issued, verifies to the
      payload it was signed with, under either algorithm policy (jwt.sign defaults to
      HS256). */
  ghost predicate JwtSound(prims: Primitives) {
    forall c, secret, expiry, iat, policy ::
      prims.jwtSign(c, secret, expiry, iat).Some? ==>
        prims.jwtSign(c, secret, expiry, iat).value != "" &&
        prims.jwtVerify(prims.jwtSign(c, secret, expiry, iat).value, secret, policy, iat) == Some(c)
  }

  /** The "iat" second jsonwebtoken stamps on a token signed at clock time nowMs. */
  function IssuedAt(nowMs: int): int {
    nowMs / 1000
  }
}
