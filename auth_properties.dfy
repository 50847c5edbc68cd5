/** What the account and session handlers promise, stated over AuthSpec's net effects. */
module AuthProperties {
  import opened Wrappers
  import opened Text
  import opened Crypto
  import opened UserModel
  import opened TokenModel
  import opened Tables
  import opened AuthSpec

  // ------------------------------------------------------------ registration

  /** The three refusals of registerUser, in the order the handler tests them; none of
      them touches the database. */
  lemma RegisterRefusals(db: Db, prims: Primitives, b: RegisterBody, now: int, random: seq<Byte>,
                         salt: seq<Byte>, delivered: bool)
    ensures !Truthy(b.fullName) || !Truthy(b.email) || !Truthy(b.password) ==>
      Register(db, prims, b, now, random, salt, delivered) == (db, Reply(400, false, "All fields are required", Some(DataTooShort)))
    ensures Truthy(b.fullName) && Truthy(b.email) && Truthy(b.password) && b.password != b.confirmPassword ==>
      Register(db, prims, b, now, random, salt, delivered) == (db, Reply(400, false, "Enter the same password", Some(PasswordMismatch)))
    ensures (Truthy(b.fullName) && Truthy(b.email) && Truthy(b.password) && b.password == b.confirmPassword
             && EmailTaken(db.users, b.email.value)) ==>
      Register(db, prims, b, now, random, salt, delivered) == (db, Reply(409, false, "User with this email already exist", None))
  {
  }

  /** The request registerUser accepts: all three fields present, the confirmation equal
      and the email not yet registered. */
  predicate RegisterAccepted(db: Db, b: RegisterBody) {
    Truthy(b.fullName) && Truthy(b.email) && Truthy(b.password) && b.password == b.confirmPassword
    && !EmailTaken(db.users, b.email.value)
  }

  /** The user registerUser stores: the given name and email, the hashed password,
      unverified, no provider, role 'user'. */
  function RegisteredUser(id: UserId, prims: Primitives, b: RegisterBody, salt: seq<Byte>): User
    requires b.password.Some?
  {
    User(id, b.fullName.GetOr(""), b.email.GetOr(""), Some(HashPassword(prims, b.password.value, salt)),
         false, None, None, None, UserRole)
  }

  /** An accepted registration whose email goes out stores exactly one new unverified
      user and one verification token for it: 64 lower-case hex characters, expiring
      fifteen minutes later. Sessions are untouched. */
  lemma {:induction false} RegisterSuccess(db: Db, prims: Primitives, b: RegisterBody, now: int, random: seq<Byte>, salt: seq<Byte>)
    requires RegisterAccepted(db, b) && |random| == 32 && HexEncode(random) !in db.verificationTokens
    ensures var r := Register(db, prims, b, now, random, salt, true);
      var id := db.nextId;
      var token := HexEncode(random);
      && r.1 == Reply(200, true, "Verification email sent successfully", None)
      && r.0.users == db.users[id := RegisteredUser(id, prims, b, salt)]
      && r.0.verificationTokens == db.verificationTokens[token := VerificationTokenRow(id, token, now + 900000)]
      && r.0.refreshTokens == db.refreshTokens
      && r.0.nextId == id + 1
      && |token| == 64 && (forall k :: 0 <= k < |token| ==> IsLowerHexChar(token[k]))
  {
    var fields := RegisterFields(b);
    var u0 := Instantiate(db.nextId, fields);
    assert SaveResult(u0, true, prims, salt) == Ok(RegisteredUser(db.nextId, prims, b, salt));
    assert VerificationRowValid(VerificationTokenRow(db.nextId, HexEncode(random), now + VerificationTtlMs));
  }

  /** When the verification email cannot be sent, the new user and its token are deleted
      again: all three collections are as before and the reply is 500. */
  lemma {:induction false} RegisterRollback(db: Db, prims: Primitives, b: RegisterBody, now: int, random: seq<Byte>, salt: seq<Byte>)
    requires RegisterAccepted(db, b) && |random| == 32 && HexEncode(random) !in db.verificationTokens
    ensures var r := Register(db, prims, b, now, random, salt, false);
      && r.1 == Reply(500, false, "Failed to sent verification email", None)
      && r.0.users == db.users && r.0.verificationTokens == db.verificationTokens
      && r.0.refreshTokens == db.refreshTokens
  {
    var u0 := Instantiate(db.nextId, RegisterFields(b));
    assert SaveResult(u0, true, prims, salt).Ok?;
    assert VerificationRowValid(VerificationTokenRow(db.nextId, HexEncode(random), now + VerificationTtlMs));
  }

  /** A token that collides with a stored one makes VerificationToken.create throw after
      the user was created; that path has no rollback, so the new account stays, with no
      token that could ever verify it. */
  lemma {:induction false} RegisterCollisionKeepsUser(db: Db, prims: Primitives, b: RegisterBody, now: int, random: seq<Byte>,
                                                      salt: seq<Byte>, delivered: bool)
    requires DbValid(db) && RegisterAccepted(db, b) && |random| == 32 && HexEncode(random) in db.verificationTokens
    ensures var r := Register(db, prims, b, now, random, salt, delivered);
      && r.1 == Thrown(DuplicateKey)
      && r.0.users == db.users[db.nextId := RegisteredUser(db.nextId, prims, b, salt)]
      && r.0.verificationTokens == db.verificationTokens
      && (forall t :: t in r.0.verificationTokens ==> r.0.verificationTokens[t].user != db.nextId)
  {
    var u0 := Instantiate(db.nextId, RegisterFields(b));
    assert SaveResult(u0, true, prims, salt) == Ok(RegisteredUser(db.nextId, prims, b, salt));
    assert VerificationRowValid(VerificationTokenRow(db.nextId, HexEncode(random), now + VerificationTtlMs));
  }

  /** Registering an email a second time is refused with 409 and changes nothing. */
  lemma {:induction false} RegisterTwiceRefused(db: Db, prims: Primitives, b: RegisterBody, now: int, random: seq<Byte>,
                                                salt: seq<Byte>, delivered: bool,
                                                b2: RegisterBody, now2: int, random2: seq<Byte>, salt2: seq<Byte>, delivered2: bool)
    requires StatusOf(Register(db, prims, b, now, random, salt, delivered).1) == 200
    requires Truthy(b2.fullName) && Truthy(b2.password) && b2.password == b2.confirmPassword && b2.email == b.email
    ensures var db1 := Register(db, prims, b, now, random, salt, delivered).0;
      Register(db1, prims, b2, now2, random2, salt2, delivered2) == (db1, Reply(409, false, "User with this email already exist", None))
  {
    var db1 := Register(db, prims, b, now, random, salt, delivered).0;
    var u0 := Instantiate(db.nextId, RegisterFields(b));
    assert SaveResult(u0, true, prims, salt).Ok?;
    assert db1.users[db.nextId].email == b.email.value;
    assert EmailTaken(db1.users, b2.email.value);
  }

  // ------------------------------------------------------------ email verification

  /** verifyEmail refuses a missing token, and answers the same refusal for an unknown
      token and for one whose expiry lies strictly before now; none of these changes
      anything. */
  lemma VerifyEmailRefusals(db: Db, token: Option<string>, now: int)
    ensures !Truthy(token) ==>
      VerifyEmail(db, token, now) == (db, Reply(400, false, "Verification token is required", Some(MissingFields)))
    ensures Truthy(token) && (token.value !in db.verificationTokens || db.verificationTokens[token.value].expiresAt < now) ==>
      VerifyEmail(db, token, now) == (db, Reply(400, false, "Token is invalid or has expired", Some(InvalidToken)))
  {
  }

  /** A token that is still stored and whose owner exists verifies that owner, is
      consumed, and nothing else changes; this includes the instant expiresAt == now,
      which the strict comparison still accepts. */
  lemma VerifyEmailSuccess(db: Db, token: string, now: int)
    requires token != "" && token in db.verificationTokens && now <= db.verificationTokens[token].expiresAt
    requires db.verificationTokens[token].user in db.users
    ensures var uid := db.verificationTokens[token].user;
      var r := VerifyEmail(db, Some(token), now);
      && r.1 == Reply(200, true, "Email verified successfully", None)
      && r.0.users == db.users[uid := db.users[uid].(isVerified := true)]
      && r.0.verificationTokens == db.verificationTokens - {token}
      && r.0.refreshTokens == db.refreshTokens && r.0.nextId == db.nextId
  {
  }

  /** A token whose owner has gone answers 404 and is left in place. */
  lemma VerifyEmailOwnerGone(db: Db, token: string, now: int)
    requires token != "" && token in db.verificationTokens && now <= db.verificationTokens[token].expiresAt
    requires db.verificationTokens[token].user !in db.users
    ensures VerifyEmail(db, Some(token), now) == (db, Reply(404, false, "User not found", Some(NotFound)))
    ensures token in VerifyEmail(db, Some(token), now).0.verificationTokens
  {
  }

  /** A verification token works once: presenting it again, at any time, is refused. */
  lemma {:induction false} VerifyEmailSingleUse(db: Db, token: Option<string>, now: int, later: int)
    requires StatusOf(VerifyEmail(db, token, now).1) == 200
    ensures VerifyEmail(VerifyEmail(db, token, now).0, token, later).1
      == Reply(400, false, "Token is invalid or has expired", Some(InvalidToken))
  {
    assert token.value !in VerifyEmail(db, token, now).0.verificationTokens;
  }

  /** The database's TTL monitor deletes expired rows at a time of its choosing. Whether
      it has run or not makes no difference to verifyEmail, except for a token presented
      at the very millisecond it expires: the handler would accept it, the monitor may
      already have removed it. */
  lemma {:induction false} SweepInvisibleToVerify(db: Db, token: Option<string>, now: int, picked: set<string>)
    requires DbValid(db)
    requires Truthy(token) && token.value in db.verificationTokens ==> db.verificationTokens[token.value].expiresAt != now
    ensures var swept := db.(verificationTokens := SweepVerification(db.verificationTokens, now, picked));
      VerifyEmail(swept, token, now).1 == VerifyEmail(db, token, now).1
  {
    var t := SweepVerification(db.verificationTokens, now, picked);
    if Truthy(token) && token.value in t {
      assert t[token.value] == db.verificationTokens[token.value];
    }
  }

  /** ... and at that millisecond the two can disagree. */
  lemma SweepBoundary(db: Db, token: string, now: int)
    requires token != "" && token in db.verificationTokens && db.verificationTokens[token].expiresAt == now
    requires db.verificationTokens[token].user in db.users
    ensures var swept := db.(verificationTokens := SweepVerification(db.verificationTokens, now, {token}));
      && StatusOf(VerifyEmail(db, Some(token), now).1) == 200
      && StatusOf(VerifyEmail(swept, Some(token), now).1) == 400
  {
  }

  // ------------------------------------------------------------ frame: users only grow

  /** Every user stored before is still stored, with the same record except that
      isVerified may have become true. */
  ghost predicate KeepsUsers(db: Db, db': Db) {
    forall id :: id in db.users ==>
      id in db'.users && (db'.users[id] == db.users[id] || db'.users[id] == db.users[id].(isVerified := true))
  }

  /** No handler of the workflow deletes a stored user, alters it other than by verifying
      it, or un-verifies it: registration (including its rollback) only adds a user. */
  lemma {:induction false} RegisterKeepsUsers(db: Db, prims: Primitives, b: RegisterBody, now: int, random: seq<Byte>,
                                              salt: seq<Byte>, delivered: bool)
    requires DbValid(db)
    ensures KeepsUsers(db, Register(db, prims, b, now, random, salt, delivered).0)
  {
    var r := Register(db, prims, b, now, random, salt, delivered).0;
    var created := CreateUser(db, prims, RegisterFields(b), salt);
    if !Truthy(b.fullName) || !Truthy(b.email) || !Truthy(b.password) || b.password != b.confirmPassword
       || EmailTaken(db.users, b.email.value) || created.1.Err?
    {
      assert r.users == db.users;
    } else {
      assert r.users == db.users || r.users == created.0.users;
      assert db.nextId !in db.users;
      AddedUserKeepsUsers(db, created.0, created.1.value);
    }
  }

  /** verifyEmail only sets isVerified. */
  lemma VerifyEmailKeepsUsers(db: Db, token: Option<string>, now: int)
    ensures KeepsUsers(db, VerifyEmail(db, token, now).0)
  {
  }

  /** loginUser and logoutUser leave the users alone. */
  lemma SessionsKeepUsers(db: Db, prims: Primitives, config: TokenConfig, b: LoginBody, cookie: Option<string>, now: int)
    ensures Login(db, prims, config, b, now).0.users == db.users
    ensures Logout(db, cookie).0.users == db.users
  {
  }

  /** The Google callback only adds a user. */
  lemma {:induction false} GoogleKeepsUsers(db: Db, prims: Primitives, config: TokenConfig, p: GoogleProfile, now: int)
    requires DbValid(db)
    ensures KeepsUsers(db, GoogleLogin(db, prims, config, p, now).0)
  {
    var r := GoogleLogin(db, prims, config, p, now).0;
    var created := CreateUser(db, prims, GoogleFields(p), []);
    if Truthy(p.email) && LookupEmail(db.users, p.email.value).None? && created.1.Ok? {
      assert r == created.0;
      assert db.nextId !in db.users;
      AddedUserKeepsUsers(db, r, created.1.value);
    } else {
      assert r == db;
    }
  }

  /** Adding a user under a fresh id keeps every stored one. */
  lemma AddedUserKeepsUsers(db: Db, db': Db, u: User)
    requires db.nextId !in db.users && db'.users == db.users[db.nextId := u]
    ensures KeepsUsers(db, db')
  {
  }
}
