/** The User record (src/models/user.model.ts): its fields and defaults, the pre-save
    hook that hashes a modified password, password comparison and the payloads of the
    access and refresh tokens. */
module UserModel {
  import opened Wrappers
  import opened Text
  import opened Crypto

  /** The role enum ['admin', 'user', 'writer']. */
  datatype Role = AdminRole | UserRole | WriterRole

  /** The provider enum ['google', 'github', 'local']. */
  datatype Provider = Google | Github | Local

  /** A stored user. A missing required string is "" (Mongoose's required check rejects
      both). The posts and comments reference arrays are never touched by the core and
      are not modelled. */
  datatype User = User(
    id: UserId,
    fullName: string,
    email: string,
    password: Option<string>,
    isVerified: bool,
    provider: Option<Provider>,
    providerId: Option<string>,
    image: Option<string>,
    role: Role)

  /** The fields handed to `new User({...})` / `User.create({...})`. */
  datatype NewUserFields = NewUserFields(
    fullName: Option<string>,
    email: Option<string>,
    password: Option<string>,
    isVerified: Option<bool>,
    provider: Option<Provider>,
    providerId: Option<string>)

  /** The schema's required checks: fullName and email must be non-empty. */
  predicate UserValid(u: User) {
    u.fullName != "" && u.email != ""
  }

  /** A new document: the given fields, with the schema defaults isVerified = false and
      role = 'user'. */
  function Instantiate(id: UserId, f: NewUserFields): (u: User)
    ensures u.id == id && u.password == f.password && u.provider == f.provider
    ensures f.isVerified.None? ==> !u.isVerified
    ensures u.role == UserRole
    ensures UserValid(u) <==> f.fullName.GetOr("") != "" && f.email.GetOr("") != ""
  {
    User(id, f.fullName.GetOr(""), f.email.GetOr(""), f.password, f.isVerified.GetOr(false),
         f.provider, f.providerId, None, UserRole)
  }

  /** bcrypt.genSalt(10). */
  const SaltRounds: nat := 10

  function HashPassword(prims: Primitives, raw: string, salt: seq<Byte>): string {
    prims.bcryptHash(raw, SaltRounds, salt)
  }

  const ValidationFailed: string := "User validation failed"
  const HashArgumentsMissing: string := "data and salt arguments required"

  /** What document.save() stores: validation runs first, then the pre-save hook
      replaces the password by its hash when, and only when, the password was modified. */
  function SaveResult(u: User, passwordModified: bool, prims: Primitives, salt: seq<Byte>): (r: Result<User, string>)
    ensures !UserValid(u) ==> r == Err(ValidationFailed)
    ensures r.Ok? <==> UserValid(u) && (passwordModified ==> u.password.Some?)
    ensures r.Ok? && !passwordModified ==> r.value == u
    ensures r.Ok? && passwordModified ==> r.value == u.(password := Some(HashPassword(prims, u.password.value, salt)))
  {
    if !UserValid(u) then Err(ValidationFailed)
    else if !passwordModified then Ok(u)
    else if u.password.None? then Err(HashArgumentsMissing)
    else Ok(u.(password := Some(HashPassword(prims, u.password.value, salt))))
  }

  /** A user document in memory, with Mongoose's record of whether the password path was
      modified since the last save. */
  class UserDocument {
    var record: User
    var passwordModified: bool

    /** new User(fields): a fresh document; a password given here counts as modified. */
    constructor (id: UserId, fields: NewUserFields)
      ensures record == Instantiate(id, fields)
      ensures passwordModified == fields.password.Some?
    {
      record := Instantiate(id, fields);
      passwordModified := fields.password.Some?;
    }

    /** document.save() with the pre-save hook. After a successful save nothing counts as
        modified any more, so saving again hashes nothing twice. */
    method Save(prims: Primitives, salt: seq<Byte>) returns (r: Result<User, string>)
      modifies this
      ensures r == SaveResult(old(record), old(passwordModified), prims, salt)
      ensures r.Ok? ==> record == r.value && !passwordModified
      ensures r.Err? ==> record == old(record) && passwordModified == old(passwordModified)
    {
      if !UserValid(record) {
        return Err(ValidationFailed);
      }
      if passwordModified {
        if record.password.None? {
          return Err(HashArgumentsMissing);
        }
        record := record.(password := Some(HashPassword(prims, record.password.value, salt)));
      }
      passwordModified := false;
      r := Ok(record);
    }
  }

  /** A document that has been saved once and is saved again without its password being
      assigned keeps the hash it has: the hook never hashes a hash. */
  method SaveTwice(prims: Primitives, id: UserId, fields: NewUserFields, salt1: seq<Byte>, salt2: seq<Byte>)
    returns (first: Result<User, string>, second: Result<User, string>)
    ensures first.Ok? ==> second == first
    ensures first.Ok? && fields.password.Some? ==>
      first.value.password == Some(HashPassword(prims, fields.password.value, salt1))
  {
    var doc := new UserDocument(id, fields);
    first := doc.Save(prims, salt1);
    if first.Ok? {
      second := doc.Save(prims, salt2);
    } else {
      second := first;
    }
  }

  const ComparisonFailed: string := "Password comparison failed"

  /** user.isPasswordCorrect(raw): bcrypt.compare against the stored hash; bcrypt throws
      when there is no stored password, and that error is rethrown with its own message. */
  function IsPasswordCorrect(prims: Primitives, raw: string, stored: Option<string>): (r: Result<bool, string>)
    ensures stored.None? <==> r == Err(ComparisonFailed)
    ensures stored.Some? ==> r == Ok(prims.bcryptCompare(raw, stored.value))
  {
    if stored.None? then Err(ComparisonFailed) else Ok(prims.bcryptCompare(raw, stored.value))
  }

  /** The hypothesis under which bcrypt does its job: a password compares equal to its
      own hash. */
  ghost predicate BcryptSound(prims: Primitives) {
    forall raw, rounds, salt :: prims.bcryptCompare(raw, prims.bcryptHash(raw, rounds, salt))
  }

  /** A password stored through the pre-save hook is accepted by isPasswordCorrect. */
  lemma HashedPasswordIsCorrect(prims: Primitives, u: User, salt: seq<Byte>)
    requires BcryptSound(prims)
    requires SaveResult(u, true, prims, salt).Ok?
    ensures IsPasswordCorrect(prims, u.password.value, SaveResult(u, true, prims, salt).value.password) == Ok(true)
  {
  }

  /** The access-token payload {_id, email, userName}. The schema has no userName field, so
      that property is always undefined and is not serialised. */
  function AccessPayload(u: User): (c: Claims)
    ensures c.id == Some(u.id) && c.email == Some(u.email) && c.userName.None?
  {
    Claims(Some(u.id), Some(u.email), None)
  }

  /** The refresh-token payload {_id}. */
  function RefreshPayload(u: User): (c: Claims)
    ensures c.id == Some(u.id) && c.email.None? && c.userName.None?
  {
    Claims(Some(u.id), None, None)
  }

  const AccessGenerationFailed: string := "Token generation failed"
  const RefreshSecretMissing: string := "Refresh token secret missing"
  const RefreshGenerationFailed: string := "Refresh token generation failed"

  /** user.generateAccessToken(): the access payload signed with the access secret and
      the access expiry; a failure of jwt.sign is rethrown with its own message. */
  function GenerateAccessToken(prims: Primitives, config: TokenConfig, u: User, nowMs: int): (r: Result<string, string>)
    ensures r.Ok? <==> prims.jwtSign(AccessPayload(u), config.accessSecret, config.accessExpiry, IssuedAt(nowMs)).Some?
    ensures r.Ok? ==> r.value == prims.jwtSign(AccessPayload(u), config.accessSecret, config.accessExpiry, IssuedAt(nowMs)).value
    ensures r.Err? ==> r.error == AccessGenerationFailed
  {
    match prims.jwtSign(AccessPayload(u), config.accessSecret, config.accessExpiry, IssuedAt(nowMs))
    case Some(t) => Ok(t)
    case None => Err(AccessGenerationFailed)
  }

  /** user.generateRefreshToken(): refuses outright when the refresh secret is missing;
      otherwise the refresh payload signed with the refresh secret and refresh expiry. */
  function GenerateRefreshToken(prims: Primitives, config: TokenConfig, u: User, nowMs: int): (r: Result<string, string>)
    ensures config.refreshSecret == "" ==> r == Err(RefreshSecretMissing)
    ensures config.refreshSecret != "" ==>
      (r.Ok? <==> prims.jwtSign(RefreshPayload(u), config.refreshSecret, config.refreshExpiry, IssuedAt(nowMs)).Some?)
    ensures r.Ok? ==> r.value == prims.jwtSign(RefreshPayload(u), config.refreshSecret, config.refreshExpiry, IssuedAt(nowMs)).value
    ensures r.Err? && config.refreshSecret != "" ==> r.error == RefreshGenerationFailed
  {
    if config.refreshSecret == "" then Err(RefreshSecretMissing)
    else
      match prims.jwtSign(RefreshPayload(u), config.refreshSecret, config.refreshExpiry, IssuedAt(nowMs))
      case Some(t) => Ok(t)
      case None => Err(RefreshGenerationFailed)
  }

  /** The user object login returns: _id, fullName, email, role and image only. */
  datatype FilteredUser = FilteredUser(id: UserId, fullName: string, email: string, role: Role, image: Option<string>)

  function Filter(u: User): (f: FilteredUser)
    ensures f.id == u.id && f.fullName == u.fullName && f.email == u.email && f.role == u.role && f.image == u.image
  {
    FilteredUser(u.id, u.fullName, u.email, u.role, u.image)
  }

  /** A user read with .select('-password'). */
  function WithoutPassword(u: User): (v: User)
    ensures v.password.None? && v == u.(password := None)
  {
    u.(password := None)
  }
}
