/** What login, logout, the profile endpoint and the Google callback promise, stated over
    AuthSpec's net effects. */
module SessionProperties {
  import opened Wrappers
  import opened Text
  import opened Crypto
  import opened UserModel
  import opened TokenModel
  import opened AuthSpec

  // ------------------------------------------------------------ loginUser

  /** A login without both fields, or for an email nobody registered, is refused and
      changes nothing. */
  lemma LoginRefusals(db: Db, prims: Primitives, config: TokenConfig, b: LoginBody, now: int)
    ensures !Truthy(b.email) || !Truthy(b.password) ==>
      Login(db, prims, config, b, now) == (db, Reply(400, false, "Please provide email and password", None), None)
    ensures Truthy(b.email) && Truthy(b.password) && !EmailTaken(db.users, b.email.value) ==>
      Login(db, prims, config, b, now) == (db, Reply(401, false, "Invalid credentials", None), None)
  {
  }

  /** The owner of the email, on a valid database. */
  predicate Owns(db: Db, id: UserId, b: LoginBody) {
    Truthy(b.email) && Truthy(b.password) && id in db.users && db.users[id].email == b.email.value
  }

  /** An unverified account is turned away with 403 before its password is looked at (so
      the answer is the same for a right and a wrong password), and the reply carries
      success: true. */
  lemma {:induction false} LoginUnverified(db: Db, prims: Primitives, config: TokenConfig, b: LoginBody, now: int, id: UserId)
    requires DbValid(db) && Owns(db, id, b) && !db.users[id].isVerified
    ensures Login(db, prims, config, b, now) == (db, Reply(403, true, "Please verify your email before logging in", None), None)
  {
    assert LookupEmail(db.users, b.email.value) == Some(id);
  }

  /** A verified account with a wrong password gets 401; one without a stored password
      (a Google account) makes the comparison throw. Neither changes anything. */
  lemma {:induction false} LoginBadPassword(db: Db, prims: Primitives, config: TokenConfig, b: LoginBody, now: int, id: UserId)
    requires DbValid(db) && Owns(db, id, b) && db.users[id].isVerified
    ensures db.users[id].password.None? ==>
      Login(db, prims, config, b, now) == (db, Thrown(ComparisonFailed), None)
    ensures db.users[id].password.Some? && !prims.bcryptCompare(b.password.value, db.users[id].password.value) ==>
      Login(db, prims, config, b, now) == (db, Reply(401, false, "Incorrect password", None), None)
  {
    assert LookupEmail(db.users, b.email.value) == Some(id);
  }

  /** The password check loginUser passes. */
  predicate PasswordAccepted(db: Db, prims: Primitives, id: UserId, b: LoginBody)
    requires id in db.users && b.password.Some?
  {
    db.users[id].password.Some? && prims.bcryptCompare(b.password.value, db.users[id].password.value)
  }

  /** Once the password is accepted, loginUser is IssueSession for that user. */
  lemma {:induction false} LoginAccepted(db: Db, prims: Primitives, config: TokenConfig, b: LoginBody, now: int, id: UserId)
    requires DbValid(db) && Owns(db, id, b) && db.users[id].isVerified && PasswordAccepted(db, prims, id, b)
    ensures Login(db, prims, config, b, now) == IssueSession(db, prims, config, db.users[id], now)
  {
    assert LookupEmail(db.users, b.email.value) == Some(id);
  }

  /** A successful login replaces the user's oldest session by one new row holding the
      returned refresh token, expiring `refreshExpiry` seconds later; the sessions of every
      other user, the users and the verification tokens are untouched, and the returned
      user is the filtered record. */
  lemma {:induction false} LoginSuccess(db: Db, prims: Primitives, config: TokenConfig, b: LoginBody, now: int, id: UserId, v: UserId)
    requires DbValid(db) && Owns(db, id, b) && db.users[id].isVerified && PasswordAccepted(db, prims, id, b)
    requires Login(db, prims, config, b, now).2.Some?
    ensures NumberOf(config.refreshExpiry).Some?
    ensures var r := Login(db, prims, config, b, now);
      var before := RowsOf(db.refreshTokens, id);
      && r.1 == Reply(200, true, "Login successfull", None)
      && r.2.value.user == Filter(db.users[id])
      && RowsOf(r.0.refreshTokens, id)
         == (if before == [] then [] else before[1..])
            + [RefreshTokenRow(id, r.2.value.refreshToken, now + NumberOf(config.refreshExpiry).value * 1000)]
      && (v != id ==> RowsOf(r.0.refreshTokens, v) == RowsOf(db.refreshTokens, v))
      && r.0.users == db.users && r.0.verificationTokens == db.verificationTokens
  {
    LoginAccepted(db, prims, config, b, now, id);
    var u := db.users[id];
    var r := IssueSession(db, prims, config, u, now);
    var rows := DeleteOneByUser(db.refreshTokens, id);
    var row := RefreshTokenRow(id, r.2.value.refreshToken, now + NumberOf(config.refreshExpiry).value * 1000);
    assert r.0.refreshTokens == rows + [row];
    DeleteOneByUserRows(db.refreshTokens, id, v);
    RowsOfAppend(rows, row, id);
    RowsOfAppend(rows, row, v);
  }

  /** So a user who had at most one session has exactly one after logging in. */
  lemma {:induction false} LoginOneSession(db: Db, prims: Primitives, config: TokenConfig, b: LoginBody, now: int, id: UserId)
    requires DbValid(db) && Owns(db, id, b) && db.users[id].isVerified && PasswordAccepted(db, prims, id, b)
    requires Login(db, prims, config, b, now).2.Some?
    requires |RowsOf(db.refreshTokens, id)| <= 1
    ensures |RowsOf(Login(db, prims, config, b, now).0.refreshTokens, id)| == 1
  {
    LoginSuccess(db, prims, config, b, now, id, id);
  }

  /** With the default refresh expiry "7d", Number("7d") is NaN, the expiry date is
      invalid and storing the session throws: no login ever succeeds, and a login that
      gets past the password check has already deleted the user's oldest session. */
  lemma {:induction false} LoginDefaultExpiry(db: Db, prims: Primitives, config: TokenConfig, b: LoginBody, now: int, id: UserId)
    requires config.refreshExpiry == DefaultRefreshExpiry
    requires DbValid(db) && Owns(db, id, b)
    ensures Login(db, prims, config, b, now).2.None?
    ensures StatusOf(Login(db, prims, config, b, now).1) != 200
    ensures (db.users[id].isVerified && PasswordAccepted(db, prims, id, b)
             && GenerateAccessToken(prims, config, db.users[id], now).Ok?
             && GenerateRefreshToken(prims, config, db.users[id], now).Ok?) ==>
      Login(db, prims, config, b, now)
        == (db.(refreshTokens := DeleteOneByUser(db.refreshTokens, id)), Thrown(InvalidExpiry), None)
  {
    NumberOfWithUnitIsNaN();
    assert LookupEmail(db.users, b.email.value) == Some(id);
    var u := db.users[id];
    if u.isVerified && PasswordAccepted(db, prims, id, b) {
      LoginAccepted(db, prims, config, b, now, id);
      assert SignSession(prims, config, u, now).Err?;
      if GenerateAccessToken(prims, config, u, now).Ok? && GenerateRefreshToken(prims, config, u, now).Ok? {
        assert SignSession(prims, config, u, now) == Err(InvalidExpiry);
      }
    }
  }

  // ------------------------------------------------------------ logoutUser

  /** logoutUser without a cookie is refused; with one, it deletes the row holding that
      token and nothing else, and answers 200 whether or not a row held it. */
  lemma {:induction false} LogoutEffect(db: Db, cookie: Option<string>)
    requires DbValid(db)
    ensures !Truthy(cookie) ==> Logout(db, cookie) == (db, Reply(400, false, "No refresh token provided for logout", None))
    ensures Truthy(cookie) ==>
      var (db', reply) := Logout(db, cookie);
      && reply == Reply(200, true, "Logout successfull", None)
      && !HasToken(db'.refreshTokens, cookie.value)
      && (forall x :: x in db.refreshTokens && x.token != cookie.value ==> x in db'.refreshTokens)
      && (forall x :: x in db'.refreshTokens ==> x in db.refreshTokens)
      && db'.users == db.users && db'.verificationTokens == db.verificationTokens
    ensures Truthy(cookie) && !HasToken(db.refreshTokens, cookie.value) ==> Logout(db, cookie).0 == db
  {
    if Truthy(cookie) {
      DeleteOneByTokenEffect(db.refreshTokens, cookie.value);
      if !HasToken(db.refreshTokens, cookie.value) {
        DeleteOneByTokenAbsent(db.refreshTokens, cookie.value);
      }
    }
  }

  /** The refresh token a login hands out is revoked by logging out with it. */
  lemma {:induction false} LoginThenLogout(db: Db, prims: Primitives, config: TokenConfig, b: LoginBody, now: int)
    requires DbValid(db)
    requires Login(db, prims, config, b, now).2.Some?
    ensures var (db', _, session) := Login(db, prims, config, b, now);
      var token := session.value.refreshToken;
      && HasToken(db'.refreshTokens, token)
      && !HasToken(Logout(db', Some(token)).0.refreshTokens, token)
  {
    var (db', _, session) := Login(db, prims, config, b, now);
    var token := session.value.refreshToken;
    var id := LookupEmail(db.users, b.email.value).value;
    LoginAccepted(db, prims, config, b, now, id);
    var rows := DeleteOneByUser(db.refreshTokens, id);
    assert db'.refreshTokens[|db'.refreshTokens| - 1].token == token;
    assert token != "" by {
      assert RefreshRowValid(db'.refreshTokens[|db'.refreshTokens| - 1]);
    }
    DeleteOneByTokenEffect(db'.refreshTokens, token);
  }

  // ------------------------------------------------------------ getUserProfile

  /** The profile endpoint answers 401 for a missing cookie, the same 401 for every token
      jsonwebtoken refuses, whatever the reason. */
  lemma ProfileRefusals(db: Db, prims: Primitives, config: TokenConfig, cookie: Option<string>, now: int)
    ensures !Truthy(cookie) ==> Profile(db, prims, config, cookie, now) == (Reply(401, false, "Not authentication", None), None)
    ensures Truthy(cookie) && prims.jwtVerify(cookie.value, config.accessSecret, LibraryDefault, IssuedAt(now)).None? ==>
      Profile(db, prims, config, cookie, now) == (Reply(401, false, "Invalid token", None), None)
  {
  }

  /** A token that verifies but whose user is gone (or that names no user) gets 404. */
  lemma ProfileUserGone(db: Db, prims: Primitives, config: TokenConfig, token: string, now: int, claims: Claims)
    requires token != "" && prims.jwtVerify(token, config.accessSecret, LibraryDefault, IssuedAt(now)) == Some(claims)
    requires claims.id.None? || claims.id.value !in db.users
    ensures Profile(db, prims, config, Some(token), now) == (Reply(404, false, "User not found", None), None)
  {
  }

  /** The access token of a successful login opens the profile in the same second, and
      the profile is the user's record without its password. */
  lemma {:induction false} LoginThenProfile(db: Db, prims: Primitives, config: TokenConfig, b: LoginBody, now: int, id: UserId)
    requires JwtSound(prims)
    requires DbValid(db) && Owns(db, id, b) && db.users[id].isVerified && PasswordAccepted(db, prims, id, b)
    requires Login(db, prims, config, b, now).2.Some?
    ensures var r := Login(db, prims, config, b, now);
      Profile(r.0, prims, config, Some(r.2.value.accessToken), now)
        == (Reply(200, true, "User profile retrieved successfully", None), Some(WithoutPassword(db.users[id])))
  {
    LoginAccepted(db, prims, config, b, now, id);
    var u := db.users[id];
    var r := IssueSession(db, prims, config, u, now);
    var signed := prims.jwtSign(AccessPayload(u), config.accessSecret, config.accessExpiry, IssuedAt(now));
    assert r.2.value.accessToken == signed.value;
    assert prims.jwtVerify(signed.value, config.accessSecret, LibraryDefault, IssuedAt(now)) == Some(AccessPayload(u));
    assert r.0.users == db.users;
  }

  // ------------------------------------------------------------ Google strategy

  /** A Google profile without an email fails and changes nothing. */
  lemma GoogleNoEmail(db: Db, prims: Primitives, config: TokenConfig, p: GoogleProfile, now: int)
    requires !Truthy(p.email)
    ensures GoogleLogin(db, prims, config, p, now) == (db, GoogleFailed(NoGoogleEmail))
  {
  }

  /** The callback never writes a session row or a verification token: the refresh token
      it hands out is stored nowhere, so logging out with it removes nothing. */
  lemma GoogleStoresNoSession(db: Db, prims: Primitives, config: TokenConfig, p: GoogleProfile, now: int)
    ensures GoogleLogin(db, prims, config, p, now).0.refreshTokens == db.refreshTokens
    ensures GoogleLogin(db, prims, config, p, now).0.verificationTokens == db.verificationTokens
  {
  }

  /** An email that is already registered is signed in as that user, whatever its
      provider and even when it never verified its email; nothing is written. */
  lemma {:induction false} GoogleExistingUser(db: Db, prims: Primitives, config: TokenConfig, p: GoogleProfile, now: int, id: UserId)
    requires DbValid(db) && Truthy(p.email) && id in db.users && db.users[id].email == p.email.value
    ensures GoogleLogin(db, prims, config, p, now).0 == db
    ensures GenerateAccessToken(prims, config, db.users[id], now).Ok? && GenerateRefreshToken(prims, config, db.users[id], now).Ok? ==>
      GoogleLogin(db, prims, config, p, now).1 == GoogleAuthenticated(db.users[id],
        GenerateAccessToken(prims, config, db.users[id], now).value, GenerateRefreshToken(prims, config, db.users[id], now).value)
  {
    assert LookupEmail(db.users, p.email.value) == Some(id);
  }

  /** A new email creates one verified Google user without a password; a profile with no
      name fails validation and creates nothing. */
  lemma {:induction false} GoogleNewUser(db: Db, prims: Primitives, config: TokenConfig, p: GoogleProfile, now: int)
    requires Truthy(p.email) && !EmailTaken(db.users, p.email.value)
    ensures !Truthy(p.name) ==> GoogleLogin(db, prims, config, p, now) == (db, GoogleFailed(ValidationFailed))
    ensures Truthy(p.name) ==>
      GoogleLogin(db, prims, config, p, now).0 == db.(
        users := db.users[db.nextId := User(db.nextId, p.name.value, p.email.value, None, true, Some(Google), Some(p.id), None, UserRole)],
        nextId := db.nextId + 1)
  {
  }

  // ------------------------------------------------------------ the whole flow

  /** Register, verify within fifteen minutes, log in: the link in the email verifies the
      new account, and the registered password then passes the login check, so login
      proceeds to issue a session for the new user. */
  lemma {:induction false} RegisterVerifyLogin(db: Db, prims: Primitives, config: TokenConfig, b: RegisterBody, now: int,
                                               random: seq<Byte>, salt: seq<Byte>, t1: int, t2: int)
    requires DbValid(db) && BcryptSound(prims)
    requires StatusOf(Register(db, prims, b, now, random, salt, true).1) == 200
    requires t1 <= now + VerificationTtlMs
    ensures var db1 := Register(db, prims, b, now, random, salt, true).0;
      var (db2, reply) := VerifyEmail(db1, Some(HexEncode(random)), t1);
      && reply == Reply(200, true, "Email verified successfully", None)
      && db.nextId in db2.users && db2.users[db.nextId].isVerified
      && Login(db2, prims, config, LoginBody(b.email, b.password), t2)
         == IssueSession(db2, prims, config, db2.users[db.nextId], t2)
  {
    var id := db.nextId;
    var db1 := Register(db, prims, b, now, random, salt, true).0;
    var token := HexEncode(random);
    var u0 := Instantiate(id, RegisterFields(b));
    assert SaveResult(u0, true, prims, salt).Ok?;
    var u := SaveResult(u0, true, prims, salt).value;
    assert db1.users == db.users[id := u];
    assert db1.verificationTokens == db.verificationTokens[token := VerificationTokenRow(id, token, now + VerificationTtlMs)];
    assert token != "";
    var db2 := VerifyEmail(db1, Some(token), t1).0;
    assert db2.users[id] == u.(isVerified := true);
    assert DbValid(db2);
    HashedPasswordIsCorrect(prims, u0, salt);
    LoginAccepted(db2, prims, config, LoginBody(b.email, b.password), t2, id);
  }
}
