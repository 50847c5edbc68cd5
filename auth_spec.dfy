/** The account and session workflow of src/controllers/user.controller.ts and
    src/passport/passport-google-strategy.ts, as the net effect of each handler on the
    three collections (users, verification tokens, refresh tokens) and the reply it sends.
    The class AuthStore.AuthStore performs the same database calls one by one and is
    proved to reach exactly these results. */
module AuthSpec {
  import opened Wrappers
  import opened Text
  import opened Crypto
  import opened UserModel
  import opened TokenModel
  import opened Tables

  /** The ErrorCodes values the handlers attach to a reply. */
  datatype ErrorCode = DataTooShort | PasswordMismatch | MissingFields | InvalidToken | NotFound

  /** What a handler answers: the status, success flag, message and error code it hands to
      the response helper, or an exception that reaches the error middleware (status 500
      with the exception's message). */
  datatype Reply =
    | Reply(status: nat, success: bool, message: string, code: Option<ErrorCode>)
    | Thrown(message: string)

  function StatusOf(r: Reply): nat {
    match r
    case Reply(status, _, _, _) => status
    case Thrown(_) => 500
  }

  /** The three collections, and the next ObjectId the database will hand out. */
  datatype Db = Db(
    users: map<UserId, User>,
    verificationTokens: VerificationTable,
    refreshTokens: RefreshTable,
    nextId: UserId)

  /** The unique index on users.email. */
  ghost predicate UniqueEmails(users: map<UserId, User>) {
    forall a, b :: a in users && b in users && users[a].email == users[b].email ==> a == b
  }

  ghost predicate DbValid(db: Db) {
    && (forall id :: id in db.users ==> db.users[id].id == id && id < db.nextId && UserValid(db.users[id]))
    && UniqueEmails(db.users)
    && VerificationTableValid(db.verificationTokens)
    && (forall t :: t in db.verificationTokens ==> db.verificationTokens[t].user < db.nextId)
    && RefreshTableValid(db.refreshTokens)
  }

  /** User.findOne({ email }) finds a user. */
  predicate EmailTaken(users: map<UserId, User>, email: string) {
    exists id :: id in users && users[id].email == email
  }

  /** User.findOne({ email }): the key of a user with that email; with unique emails
      there is only one candidate. */
  ghost function LookupEmail(users: map<UserId, User>, email: string): (r: Option<UserId>)
    ensures r.Some? <==> EmailTaken(users, email)
    ensures r.Some? ==> r.value in users && users[r.value].email == email
    ensures r.Some? && UniqueEmails(users) ==> forall id :: id in users && users[id].email == email ==> id == r.value
  {
    if EmailTaken(users, email) then
      var id :| id in users && users[id].email == email;
      Some(id)
    else None
  }

  /** User.create(fields): a new document saved through validation and the pre-save
      hook, then inserted under the unique email index. */
  function CreateUser(db: Db, prims: Primitives, fields: NewUserFields, salt: seq<Byte>): (r: (Db, Result<User, string>))
    ensures r.1.Err? ==> r.0 == db
    ensures r.1.Ok? ==> r.1.value.id == db.nextId && UserValid(r.1.value) && !EmailTaken(db.users, r.1.value.email)
    ensures r.1.Ok? ==> r.0 == db.(users := db.users[db.nextId := r.1.value], nextId := db.nextId + 1)
    ensures DbValid(db) ==> DbValid(r.0)
  {
    var id := db.nextId;
    match SaveResult(Instantiate(id, fields), fields.password.Some?, prims, salt)
    case Err(m) => (db, Err(m))
    case Ok(u) =>
      if EmailTaken(db.users, u.email) then (db, Err(DuplicateKey))
      else (db.(users := db.users[id := u], nextId := id + 1), Ok(u))
  }

  // ------------------------------------------------------------ registerUser

  datatype RegisterBody = RegisterBody(
    fullName: Option<string>,
    email: Option<string>,
    password: Option<string>,
    confirmPassword: Option<string>)

  /** The fields registerUser hands to User.create: no provider, no verified flag. */
  function RegisterFields(b: RegisterBody): NewUserFields {
    NewUserFields(b.fullName, b.email, b.password, None, None, None)
  }

  /** registerUser. `random` is what crypto.randomBytes(32) drew, `salt` what
      bcrypt.genSalt drew, `emailDelivered` the success flag of the email sender. */
  function Register(db: Db, prims: Primitives, b: RegisterBody, now: int, random: seq<Byte>,
                    salt: seq<Byte>, emailDelivered: bool): (r: (Db, Reply))
    ensures DbValid(db) ==> DbValid(r.0)
  {
    if !Truthy(b.fullName) || !Truthy(b.email) || !Truthy(b.password) then
      (db, Reply(400, false, "All fields are required", Some(DataTooShort)))
    else if b.password != b.confirmPassword then
      (db, Reply(400, false, "Enter the same password", Some(PasswordMismatch)))
    else if EmailTaken(db.users, b.email.value) then
      (db, Reply(409, false, "User with this email already exist", None))
    else
      var (db1, created) := CreateUser(db, prims, RegisterFields(b), salt);
      match created
      case Err(m) => (db1, Thrown(m))
      case Ok(u) =>
        var row := VerificationTokenRow(u.id, HexEncode(random), now + VerificationTtlMs);
        match CreateVerification(db1.verificationTokens, row)
        case Err(m) => (db1, Thrown(m))
        case Ok(tokens) =>
          if !emailDelivered then
            (db.(nextId := db1.nextId), Reply(500, false, "Failed to sent verification email", None))
          else
            (db1.(verificationTokens := tokens), Reply(200, true, "Verification email sent successfully", None))
  }

  // ------------------------------------------------------------ verifyEmail

  /** verifyEmail for the query's token at clock time now (ms). */
  function VerifyEmail(db: Db, token: Option<string>, now: int): (r: (Db, Reply))
    ensures DbValid(db) ==> DbValid(r.0)
  {
    if !Truthy(token) then
      (db, Reply(400, false, "Verification token is required", Some(MissingFields)))
    else if token.value !in db.verificationTokens || db.verificationTokens[token.value].expiresAt < now then
      (db, Reply(400, false, "Token is invalid or has expired", Some(InvalidToken)))
    else
      var uid := db.verificationTokens[token.value].user;
      if uid !in db.users then
        (db, Reply(404, false, "User not found", Some(NotFound)))
      else
        (db.(users := db.users[uid := db.users[uid].(isVerified := true)],
             verificationTokens := db.verificationTokens - {token.value}),
         Reply(200, true, "Email verified successfully", None))
  }

  // ------------------------------------------------------------ loginUser

  datatype LoginBody = LoginBody(email: Option<string>, password: Option<string>)

  /** What a successful login sets as cookies and returns as data. */
  datatype Session = Session(user: FilteredUser, accessToken: string, refreshToken: string)

  const InvalidExpiry: string := "Cast to date failed for value \"Invalid Date\" at path \"expiresAt\""

  /** The two signed tokens of a new session and the expiry date of its stored row. */
  datatype SessionTokens = SessionTokens(access: string, refresh: string, expiresAt: int)

  /** The largest distance from the epoch, in ms, that a JavaScript Date can hold. */
  const MaxDateMs: int := 8_640_000_000_000_000

  /** `new Date(ms)` is a valid date, not the Invalid Date. */
  predicate IsValidDate(ms: int) {
    -MaxDateMs <= ms <= MaxDateMs
  }

  /** Signing both tokens, then computing `new Date(Date.now() + Number(refreshExpiry) * 1000)`;
      a NaN expiry, or one that carries the date past the range a Date can hold, is the
      invalid date that storing the row then rejects. */
  function SignSession(prims: Primitives, config: TokenConfig, u: User, now: int): (r: Result<SessionTokens, string>)
    ensures r.Ok? <==>
      GenerateAccessToken(prims, config, u, now).Ok? && GenerateRefreshToken(prims, config, u, now).Ok?
      && NumberOf(config.refreshExpiry).Some?
      && IsValidDate(now + NumberOf(config.refreshExpiry).value * 1000)
    ensures r.Ok? ==>
      r.value == SessionTokens(GenerateAccessToken(prims, config, u, now).value,
                               GenerateRefreshToken(prims, config, u, now).value,
                               now + NumberOf(config.refreshExpiry).value * 1000)
  {
    match GenerateAccessToken(prims, config, u, now)
    case Err(m) => Err(m)
    case Ok(access) =>
      match GenerateRefreshToken(prims, config, u, now)
      case Err(m) => Err(m)
      case Ok(refresh) =>
        match NumberOf(config.refreshExpiry)
        case None => Err(InvalidExpiry)
        case Some(seconds) =>
          if !IsValidDate(now + seconds * 1000) then Err(InvalidExpiry)
          else Ok(SessionTokens(access, refresh, now + seconds * 1000))
  }

  /** The tail of loginUser once the password is accepted: delete one refresh row of the
      user, sign both tokens, then store the new refresh row. */
  function IssueSession(db: Db, prims: Primitives, config: TokenConfig, u: User, now: int): (r: (Db, Reply, Option<Session>))
    ensures r.2.Some? <==> r.1 == Reply(200, true, "Login successfull", None)
    ensures r.2.Some? ==>
      && SignSession(prims, config, u, now).Ok?
      && var t := SignSession(prims, config, u, now).value;
      && r.2.value == Session(Filter(u), t.access, t.refresh)
      && r.0.refreshTokens == DeleteOneByUser(db.refreshTokens, u.id) + [RefreshTokenRow(u.id, t.refresh, t.expiresAt)]
    ensures DbValid(db) ==> DbValid(r.0)
    ensures r.0.users == db.users && r.0.verificationTokens == db.verificationTokens && r.0.nextId == db.nextId
  {
    var rows := DeleteOneByUser(db.refreshTokens, u.id);
    assert DbValid(db) ==> RefreshTableValid(rows) by {
      if DbValid(db) { DeleteOneByUserValid(db.refreshTokens, u.id); }
    }
    var db1 := db.(refreshTokens := rows);
    match SignSession(prims, config, u, now)
    case Err(m) => (db1, Thrown(m), None)
    case Ok(t) =>
      match CreateRefresh(rows, RefreshTokenRow(u.id, t.refresh, t.expiresAt))
      case Err(m) => (db1, Thrown(m), None)
      case Ok(rows') =>
        (db1.(refreshTokens := rows'), Reply(200, true, "Login successfull", None),
         Some(Session(Filter(u), t.access, t.refresh)))
  }

  /** loginUser at clock time now (ms). */
  ghost function Login(db: Db, prims: Primitives, config: TokenConfig, b: LoginBody, now: int): (r: (Db, Reply, Option<Session>))
    ensures DbValid(db) ==> DbValid(r.0)
  {
    if !Truthy(b.email) || !Truthy(b.password) then
      (db, Reply(400, false, "Please provide email and password", None), None)
    else
      match LookupEmail(db.users, b.email.value)
      case None => (db, Reply(401, false, "Invalid credentials", None), None)
      case Some(id) =>
        var u := db.users[id];
        if !u.isVerified then
          (db, Reply(403, true, "Please verify your email before logging in", None), None)
        else
          match IsPasswordCorrect(prims, b.password.value, u.password)
          case Err(m) => (db, Thrown(m), None)
          case Ok(correct) =>
            if !correct then (db, Reply(401, false, "Incorrect password", None), None)
            else IssueSession(db, prims, config, u, now)
  }

  // ------------------------------------------------------------ logoutUser

  /** logoutUser for the request's refreshToken cookie. */
  function Logout(db: Db, cookie: Option<string>): (r: (Db, Reply))
    ensures DbValid(db) ==> DbValid(r.0)
  {
    if !Truthy(cookie) then
      (db, Reply(400, false, "No refresh token provided for logout", None))
    else
      assert DbValid(db) ==> RefreshTableValid(DeleteOneByToken(db.refreshTokens, cookie.value)) by {
        if DbValid(db) { DeleteOneByTokenEffect(db.refreshTokens, cookie.value); }
      }
      (db.(refreshTokens := DeleteOneByToken(db.refreshTokens, cookie.value)),
       Reply(200, true, "Logout successfull", None))
  }

  // ------------------------------------------------------------ getUserProfile

  /** getUserProfile for the request's accessToken cookie at clock time now (ms); it reads
      and changes nothing. */
  function Profile(db: Db, prims: Primitives, config: TokenConfig, cookie: Option<string>, now: int): (r: (Reply, Option<User>))
    ensures r.1.Some? <==> StatusOf(r.0) == 200
    ensures r.1.Some? ==> r.1.value.password.None?
    ensures DbValid(db) && r.1.Some? ==> r.1.value.id in db.users && r.1.value == WithoutPassword(db.users[r.1.value.id])
  {
    if !Truthy(cookie) then
      (Reply(401, false, "Not authentication", None), None)
    else
      match prims.jwtVerify(cookie.value, config.accessSecret, LibraryDefault, IssuedAt(now))
      case None => (Reply(401, false, "Invalid token", None), None)
      case Some(claims) =>
        if claims.id.None? || claims.id.value !in db.users then
          (Reply(404, false, "User not found", None), None)
        else
          (Reply(200, true, "User profile retrieved successfully", None),
           Some(WithoutPassword(db.users[claims.id.value])))
  }

  // ------------------------------------------------------------ Google strategy

  /** The parts of the Google profile the callback reads: profile.id and profile._json. */
  datatype GoogleProfile = GoogleProfile(id: string, email: Option<string>, name: Option<string>)

  /** What the callback hands to done(): an error, or the user with both tokens. */
  datatype GoogleOutcome =
    | GoogleFailed(message: string)
    | GoogleAuthenticated(user: User, accessToken: string, refreshToken: string)

  /** The fields the callback hands to UserModel.create. */
  function GoogleFields(p: GoogleProfile): NewUserFields {
    NewUserFields(p.name, p.email, None, Some(true), Some(Google), Some(p.id))
  }

  const NoGoogleEmail: string := "Google account does not have an email"

  /** The Google verify callback: find or create the user, then sign both tokens. */
  ghost function GoogleLogin(db: Db, prims: Primitives, config: TokenConfig, p: GoogleProfile, now: int): (r: (Db, GoogleOutcome))
    ensures DbValid(db) ==> DbValid(r.0)
  {
    if !Truthy(p.email) then (db, GoogleFailed(NoGoogleEmail))
    else
      var (db1, found) :=
        match LookupEmail(db.users, p.email.value)
        case Some(id) => (db, Ok(db.users[id]))
        case None => CreateUser(db, prims, GoogleFields(p), []);
      match found
      case Err(m) => (db1, GoogleFailed(m))
      case Ok(u) =>
        match GenerateAccessToken(prims, config, u, now)
        case Err(m) => (db1, GoogleFailed(m))
        case Ok(access) =>
          match GenerateRefreshToken(prims, config, u, now)
          case Err(m) => (db1, GoogleFailed(m))
          case Ok(refresh) => (db1, GoogleAuthenticated(u, access, refresh))
  }
}
