/** The handlers of src/controllers/user.controller.ts and the Google callback as methods
    of one store holding the three collections. Each method performs the handler's
    database calls in the handler's order and is proved to reach AuthSpec's net effect,
    about which AuthProperties and SessionProperties state the promises. */
module AuthStore {
  import opened Wrappers
  import opened Text
  import opened Crypto
  import opened UserModel
  import opened TokenModel
  import opened Tables
  import AuthSpec

  class AuthStore {
    var users: map<UserId, User>
    var verificationTokens: VerificationTable
    var refreshTokens: RefreshTable
    var nextId: UserId
    const prims: Primitives
    const config: TokenConfig

    ghost function Db(): AuthSpec.Db
      reads this
    {
      AuthSpec.Db(users, verificationTokens, refreshTokens, nextId)
    }

    ghost predicate Valid()
      reads this
    {
      AuthSpec.DbValid(Db())
    }

    /** An empty database. */
    constructor (prims: Primitives, config: TokenConfig)
      ensures Valid()
      ensures users == map[] && verificationTokens == map[] && refreshTokens == [] && nextId == 0
      ensures this.prims == prims && this.config == config
    {
      users := map[];
      verificationTokens := map[];
      refreshTokens := [];
      nextId := 0;
      this.prims := prims;
      this.config := config;
    }

    /** User.create(fields): a new document, saved, inserted under the unique email index. */
    method CreateUser(fields: NewUserFields, salt: seq<Byte>) returns (r: Result<User, string>)
      requires Valid()
      modifies this
      ensures Valid()
      ensures (Db(), r) == AuthSpec.CreateUser(old(Db()), prims, fields, salt)
    {
      var doc := new UserDocument(nextId, fields);
      r := doc.Save(prims, salt);
      if r.Err? {
        return;
      }
      if AuthSpec.EmailTaken(users, r.value.email) {
        return Err(DuplicateKey);
      }
      users := users[nextId := r.value];
      nextId := nextId + 1;
    }

    /** registerUser. */
    method Register(b: AuthSpec.RegisterBody, now: int, random: seq<Byte>, salt: seq<Byte>, emailDelivered: bool)
      returns (reply: AuthSpec.Reply)
      requires Valid()
      modifies this
      ensures Valid()
      ensures (Db(), reply) == AuthSpec.Register(old(Db()), prims, b, now, random, salt, emailDelivered)
    {
      if !Truthy(b.fullName) || !Truthy(b.email) || !Truthy(b.password) {
        return AuthSpec.Reply(400, false, "All fields are required", Some(AuthSpec.DataTooShort));
      }
      if b.password != b.confirmPassword {
        return AuthSpec.Reply(400, false, "Enter the same password", Some(AuthSpec.PasswordMismatch));
      }
      if AuthSpec.EmailTaken(users, b.email.value) {
        return AuthSpec.Reply(409, false, "User with this email already exist", None);
      }
      ghost var before := Db();
      var created := CreateUser(AuthSpec.RegisterFields(b), salt);
      if created.Err? {
        return AuthSpec.Thrown(created.error);
      }
      var user := created.value;
      assert user.id == before.nextId && users == before.users[user.id := user];
      var row := VerificationTokenRow(user.id, HexEncode(random), now + VerificationTtlMs);
      var inserted := CreateVerification(verificationTokens, row);
      if inserted.Err? {
        return AuthSpec.Thrown(inserted.error);
      }
      verificationTokens := inserted.value;
      if !emailDelivered {
        // user.deleteOne(), then VerificationToken.deleteOne({ user: user._id })
        users := users - {user.id};
        assert users == before.users;
        assert verificationTokens[row.token].user == user.id;
        var t :| t in verificationTokens && verificationTokens[t].user == user.id;
        assert t == row.token;
        verificationTokens := verificationTokens - {t};
        assert verificationTokens == before.verificationTokens;
        return AuthSpec.Reply(500, false, "Failed to sent verification email", None);
      }
      return AuthSpec.Reply(200, true, "Verification email sent successfully", None);
    }

    /** verifyEmail. */
    method VerifyEmail(token: Option<string>, now: int) returns (reply: AuthSpec.Reply)
      requires Valid()
      modifies this
      ensures Valid()
      ensures (Db(), reply) == AuthSpec.VerifyEmail(old(Db()), token, now)
    {
      if !Truthy(token) {
        return AuthSpec.Reply(400, false, "Verification token is required", Some(AuthSpec.MissingFields));
      }
      if token.value !in verificationTokens || verificationTokens[token.value].expiresAt < now {
        return AuthSpec.Reply(400, false, "Token is invalid or has expired", Some(AuthSpec.InvalidToken));
      }
      var uid := verificationTokens[token.value].user;
      if uid !in users {
        return AuthSpec.Reply(404, false, "User not found", Some(AuthSpec.NotFound));
      }
      users := users[uid := users[uid].(isVerified := true)];
      verificationTokens := verificationTokens - {token.value};
      return AuthSpec.Reply(200, true, "Email verified successfully", None);
    }

    /** User.findOne({ email }). */
    method FindByEmail(email: string) returns (r: Option<User>)
      requires Valid()
      ensures r.Some? <==> AuthSpec.EmailTaken(users, email)
      ensures r.Some? ==> r.value == users[AuthSpec.LookupEmail(users, email).value]
    {
      if !AuthSpec.EmailTaken(users, email) {
        return None;
      }
      var id :| id in users && users[id].email == email;
      return Some(users[id]);
    }

    /** loginUser. */
    method Login(b: AuthSpec.LoginBody, now: int) returns (reply: AuthSpec.Reply, session: Option<AuthSpec.Session>)
      requires Valid()
      modifies this
      ensures Valid()
      ensures (Db(), reply, session) == AuthSpec.Login(old(Db()), prims, config, b, now)
    {
      if !Truthy(b.email) || !Truthy(b.password) {
        return AuthSpec.Reply(400, false, "Please provide email and password", None), None;
      }
      var found := FindByEmail(b.email.value);
      if found.None? {
        return AuthSpec.Reply(401, false, "Invalid credentials", None), None;
      }
      var user := found.value;
      if !user.isVerified {
        return AuthSpec.Reply(403, true, "Please verify your email before logging in", None), None;
      }
      var correct := IsPasswordCorrect(prims, b.password.value, user.password);
      if correct.Err? {
        return AuthSpec.Thrown(correct.error), None;
      }
      if !correct.value {
        return AuthSpec.Reply(401, false, "Incorrect password", None), None;
      }
      reply, session := IssueSession(user, now);
    }

    /** Both tokens of a new session and the expiry date of its stored row. */
    method SignSession(user: User, now: int) returns (r: Result<AuthSpec.SessionTokens, string>)
      ensures r == AuthSpec.SignSession(prims, config, user, now)
    {
      var access := GenerateAccessToken(prims, config, user, now);
      if access.Err? {
        return Err(access.error);
      }
      var refresh := GenerateRefreshToken(prims, config, user, now);
      if refresh.Err? {
        return Err(refresh.error);
      }
      var seconds := NumberOf(config.refreshExpiry);
      if seconds.None? || !AuthSpec.IsValidDate(now + seconds.value * 1000) {
        return Err(AuthSpec.InvalidExpiry);
      }
      return Ok(AuthSpec.SessionTokens(access.value, refresh.value, now + seconds.value * 1000));
    }

    /** The tail of loginUser: RefreshToken.deleteOne({ user }), both tokens, then
        RefreshToken.create. */
    method IssueSession(user: User, now: int) returns (reply: AuthSpec.Reply, session: Option<AuthSpec.Session>)
      requires Valid()
      modifies this
      ensures Valid()
      ensures (Db(), reply, session) == AuthSpec.IssueSession(old(Db()), prims, config, user, now)
    {
      DeleteOneByUserValid(refreshTokens, user.id);
      refreshTokens := DeleteOneByUser(refreshTokens, user.id);
      var tokens := SignSession(user, now);
      if tokens.Err? {
        return AuthSpec.Thrown(tokens.error), None;
      }
      var t := tokens.value;
      var created := CreateRefresh(refreshTokens, RefreshTokenRow(user.id, t.refresh, t.expiresAt));
      if created.Err? {
        return AuthSpec.Thrown(created.error), None;
      }
      refreshTokens := created.value;
      return AuthSpec.Reply(200, true, "Login successfull", None), Some(AuthSpec.Session(Filter(user), t.access, t.refresh));
    }

    /** logoutUser. */
    method Logout(cookie: Option<string>) returns (reply: AuthSpec.Reply)
      requires Valid()
      modifies this
      ensures Valid()
      ensures (Db(), reply) == AuthSpec.Logout(old(Db()), cookie)
    {
      if !Truthy(cookie) {
        return AuthSpec.Reply(400, false, "No refresh token provided for logout", None);
      }
      DeleteOneByTokenEffect(refreshTokens, cookie.value);
      refreshTokens := DeleteOneByToken(refreshTokens, cookie.value);
      return AuthSpec.Reply(200, true, "Logout successfull", None);
    }

    /** getUserProfile; it changes nothing. */
    method Profile(cookie: Option<string>, now: int) returns (reply: AuthSpec.Reply, user: Option<User>)
      requires Valid()
      ensures (reply, user) == AuthSpec.Profile(Db(), prims, config, cookie, now)
    {
      if !Truthy(cookie) {
        return AuthSpec.Reply(401, false, "Not authentication", None), None;
      }
      var claims := prims.jwtVerify(cookie.value, config.accessSecret, LibraryDefault, IssuedAt(now));
      if claims.None? {
        return AuthSpec.Reply(401, false, "Invalid token", None), None;
      }
      var id := claims.value.id;
      if id.None? || id.value !in users {
        return AuthSpec.Reply(404, false, "User not found", None), None;
      }
      return AuthSpec.Reply(200, true, "User profile retrieved successfully", None), Some(WithoutPassword(users[id.value]));
    }

    /** The Google verify callback. */
    method GoogleCallback(p: AuthSpec.GoogleProfile, now: int) returns (outcome: AuthSpec.GoogleOutcome)
      requires Valid()
      modifies this
      ensures Valid()
      ensures (Db(), outcome) == AuthSpec.GoogleLogin(old(Db()), prims, config, p, now)
    {
      if !Truthy(p.email) {
        return AuthSpec.GoogleFailed(AuthSpec.NoGoogleEmail);
      }
      var found := FindByEmail(p.email.value);
      var user: User;
      if found.Some? {
        user := found.value;
      } else {
        var created := CreateUser(AuthSpec.GoogleFields(p), []);
        if created.Err? {
          return AuthSpec.GoogleFailed(created.error);
        }
        user := created.value;
      }
      var access := GenerateAccessToken(prims, config, user, now);
      if access.Err? {
        return AuthSpec.GoogleFailed(access.error);
      }
      var refresh := GenerateRefreshToken(prims, config, user, now);
      if refresh.Err? {
        return AuthSpec.GoogleFailed(refresh.error);
      }
      return AuthSpec.GoogleAuthenticated(user, access.value, refresh.value);
    }

    /** One pass of the TTL monitor over both collections. */
    method Sweep(now: int, picked: set<string>)
      requires Valid()
      modifies this
      ensures Valid()
      ensures verificationTokens == SweepVerification(old(verificationTokens), now, picked)
      ensures refreshTokens == SweepRefresh(old(refreshTokens), now, picked)
      ensures users == old(users) && nextId == old(nextId)
    {
      SweepValid(verificationTokens, refreshTokens, now, picked);
      verificationTokens := SweepVerification(verificationTokens, now, picked);
      refreshTokens := SweepRefresh(refreshTokens, now, picked);
    }
  }
}
