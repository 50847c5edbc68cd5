# skillswave-server: accounts, sessions, courses and schemas in Dafny

This project models the core of the skillswave-server learning platform (an Express and
Mongoose API) and proves what it promises. The model has three parts.

- **Accounts and sessions.**
  - Registration with an emailed verification token, email verification, login with a
    stored refresh token, logout and the profile endpoint (`user.controller.ts`).
  - The Google find-or-create callback and the JWT cookie strategy (the passport files).
  - The `getAuth` field check.
  - The three collections they drive: users, verification tokens and refresh tokens,
    including the TTL indexes that expire rows.
  - `AuthSpec` gives each handler's net effect as a function of the database and its
    inputs. The class `AuthStore.AuthStore` holds the collections as fields and performs
    the same database calls one by one. Each of its methods is proved to reach exactly
    `AuthSpec`'s result.
  - `AuthProperties` and `SessionProperties` state the workflow's promises as lemmas.
- **Courses.**
  - The handlers of `course.controller.ts`: category filter and paging, lookup by id,
    creation with defaults, the ownership gate, price and image normalisation, filling in
    missing section and chapter ids, and the merge into the stored course.
  - `getCourse`, `getCourses` and `uploadVideo` only read, so they are functions.
  - `createCourse`, `updateCourse` and `deleteCourse` are methods of `CourseStore.CourseStore`.
  - The id-filling `map` loops are loops that draw from the store's identifier supply.
  - `CourseSpec` holds the step functions, and `CourseProperties` the lemmas about them.
- **Schemas.** Every schema in `src/models` is a datatype with two predicates: a validity
  predicate and a collection predicate for its unique indexes. Casting (trim setters,
  defaults) is a function. Each `create` is a function that validates and then inserts.

Foreign code is left unspecified; it enters only as inputs:

- bcrypt and jsonwebtoken (JSON Web Tokens per RFC 7519, HS256 per section 3.2 of RFC
  7518) are function values, about which lemmas state only what they assume.
- `crypto.randomBytes(32)` and `bcrypt.genSalt` are byte-sequence inputs. Hex encoding is
  modelled for real.
- The clock is an integer count of milliseconds.
- The email sender is its success flag.
- `uuidv4` is a supply `uuid: nat -> string` read in call order.
- A Cloudinary upload is its outcome: a response, `null`, or a thrown error.
- `fs.existsSync` is a boolean.

Replies record the status, success flag and message each handler intends. An exception
that reaches the error middleware is `Thrown(message)`, which the middleware answers with
500.

The handlers follow the code as written, with the one exception named first under "Left
out" (the passport files' `UserModel` import). That includes these surprises, each proved
as a lemma:

- An unverified login answers 403 with `success: true`.
- An expired token is detected with a strict `<`.
- With the default refresh expiry `"7d"`, `Number(...)` gives NaN and no login can succeed.
- The Google callback stores no session.
- `getAuth` rejects every user the JWT strategy authenticates, so update and delete always
  end in the error middleware.
- `'all'` filters on a category literally named `'all'`.
- `createCourse` builds every course with no sections, which the schema refuses, so no
  course is ever created.

## Model

| member | source | states |
|---|---|---|
| AuthSpec.LookupEmail | src/controllers/user.controller.ts:39 | findOne({ email }) finds a user exactly when one has that email, and under the unique email index it is the only one |
| AuthSpec.CreateUser | src/controllers/user.controller.ts:49-53 | User.create stores a valid user under the next id only when the email is free; on failure the database is unchanged; validity of the database is kept |
| AuthSpec.Register | src/controllers/user.controller.ts:14-88 | registerUser keeps the database valid whatever the inputs |
| AuthSpec.VerifyEmail | src/controllers/user.controller.ts:90-138 | verifyEmail keeps the database valid |
| AuthSpec.SignSession | src/controllers/user.controller.ts:186-190 | a session is signed exactly when both tokens sign, Number(refreshExpiry) is a number and now + Number(refreshExpiry) * 1000 is a date a JavaScript Date can hold (within 8.64e15 ms of the epoch); it then holds both tokens and that expiry |
| AuthSpec.IssueSession | src/controllers/user.controller.ts:183-228 | a login that passed the password check returns a session exactly when it answers 200; the stored refresh rows are then the user's first row deleted plus one new row with the returned token; users and verification tokens are untouched |
| AuthSpec.Login | src/controllers/user.controller.ts:140-229 | loginUser keeps the database valid |
| AuthSpec.Logout | src/controllers/user.controller.ts:231-262 | logoutUser keeps the database valid |
| AuthSpec.Profile | src/controllers/user.controller.ts:264-308 | getUserProfile returns a user exactly when it answers 200, and that user is the stored record without its password |
| AuthSpec.GoogleLogin | src/passport/passport-google-strategy.ts:16-59 | the Google verify callback keeps the database valid |
| AuthStore.AuthStore.CreateUser | src/controllers/user.controller.ts:49-53 | the in-place create reaches AuthSpec.CreateUser's database and result and keeps the store valid |
| AuthStore.AuthStore.Register | src/controllers/user.controller.ts:14-88 | the step-by-step handler, including its rollback deletes, reaches AuthSpec.Register's database and reply |
| AuthStore.AuthStore.VerifyEmail | src/controllers/user.controller.ts:90-138 | the step-by-step handler reaches AuthSpec.VerifyEmail's database and reply |
| AuthStore.AuthStore.FindByEmail | src/controllers/user.controller.ts:153 | a user is found exactly when one has the email, and it is the stored one |
| AuthStore.AuthStore.Login | src/controllers/user.controller.ts:140-229 | the step-by-step handler reaches AuthSpec.Login's database, reply and session |
| AuthStore.AuthStore.SignSession | src/controllers/user.controller.ts:186-190 | signing changes nothing and yields AuthSpec.SignSession |
| AuthStore.AuthStore.IssueSession | src/controllers/user.controller.ts:183-196 | deleteOne({ user }) then create reaches AuthSpec.IssueSession |
| AuthStore.AuthStore.Logout | src/controllers/user.controller.ts:231-262 | findOneAndDelete({ token }) reaches AuthSpec.Logout |
| AuthStore.AuthStore.Profile | src/controllers/user.controller.ts:264-308 | the profile read changes nothing and yields AuthSpec.Profile |
| AuthStore.AuthStore.GoogleCallback | src/passport/passport-google-strategy.ts:16-59 | find-or-create in place reaches AuthSpec.GoogleLogin |
| AuthStore.AuthStore.Sweep | src/models/refreshtoken.model.ts:19 | a pass of the TTL monitor removes only picked, expired rows from both token collections and leaves the users alone |
| AuthProperties.RegisterRefusals | src/controllers/user.controller.ts:18-46 | missing field 400, password mismatch 400, taken email 409, in that order, each leaving the database unchanged |
| AuthProperties.RegisterSuccess | src/controllers/user.controller.ts:49-64 | a registration whose email goes out adds exactly one unverified user and one token for it: 64 lower-case hex characters expiring 900000 ms later |
| AuthProperties.RegisterRollback | src/controllers/user.controller.ts:70-80 | a failed email send deletes the new user and its token: all three collections equal their prior state, reply 500 |
| AuthProperties.RegisterCollisionKeepsUser | src/controllers/user.controller.ts:60-64 | a colliding token makes VerificationToken.create throw after the user was created, and that user stays with no token that could verify it |
| AuthProperties.RegisterTwiceRefused | src/controllers/user.controller.ts:39-46 | after a successful registration, registering the same email again is 409 and changes nothing |
| AuthProperties.VerifyEmailRefusals | src/controllers/user.controller.ts:94-112 | a missing token is 400; an unknown token and one with expiresAt < now are both 400 INVALID_TOKEN; nothing changes |
| AuthProperties.VerifyEmailSuccess | src/controllers/user.controller.ts:115-137 | a stored, unexpired token sets isVerified on its user and is deleted; expiresAt == now is accepted; nothing else changes |
| AuthProperties.VerifyEmailOwnerGone | src/controllers/user.controller.ts:121-128 | a token whose user is gone answers 404 and the token row stays |
| AuthProperties.VerifyEmailSingleUse | src/controllers/user.controller.ts:131 | after a successful verify, the same token is refused at any later time |
| AuthProperties.SweepInvisibleToVerify | src/models/verificationtoken.model.ts:19 | whether the TTL monitor ran makes no difference to verifyEmail except at the millisecond of expiry |
| AuthProperties.SweepBoundary | src/controllers/user.controller.ts:105 | at that millisecond the handler accepts a token the monitor may already have removed |
| AuthProperties.RegisterKeepsUsers | src/controllers/user.controller.ts:49-80 | registration never deletes, alters or un-verifies a stored user |
| AuthProperties.VerifyEmailKeepsUsers | src/controllers/user.controller.ts:115-119 | verifyEmail changes a user only by setting isVerified |
| AuthProperties.SessionsKeepUsers | src/controllers/user.controller.ts:140-262 | login and logout leave the users unchanged |
| AuthProperties.GoogleKeepsUsers | src/passport/passport-google-strategy.ts:31-43 | the Google callback only adds a user |
| SessionProperties.LoginRefusals | src/controllers/user.controller.ts:144-160 | a missing field is 400 and an unknown email 401, changing nothing |
| SessionProperties.LoginUnverified | src/controllers/user.controller.ts:163-169 | an unverified account gets 403 with success true before any password comparison, changing nothing |
| SessionProperties.LoginBadPassword | src/controllers/user.controller.ts:172-180 | a wrong password is 401; an account without a stored password makes the comparison throw; neither changes anything |
| SessionProperties.LoginAccepted | src/controllers/user.controller.ts:183-228 | once the password is accepted, login is exactly IssueSession for that user |
| SessionProperties.LoginSuccess | src/controllers/user.controller.ts:183-214 | a successful login replaces the user's oldest refresh row by one holding the returned token expiring now + expiry*1000; other users' rows are untouched; the returned user is the filtered record |
| SessionProperties.LoginOneSession | src/controllers/user.controller.ts:183-196 | a user with at most one refresh row has exactly one after a successful login |
| SessionProperties.LoginDefaultExpiry | src/controllers/user.controller.ts:189-190 | with the default expiry "7d" no login succeeds, and one past the password check has already deleted the user's oldest session |
| SessionProperties.LogoutEffect | src/controllers/user.controller.ts:232-261 | no cookie is 400; otherwise only the row with that token is deleted and the reply is 200 whether or not a row matched |
| SessionProperties.LoginThenLogout | src/controllers/user.controller.ts:242 | logging out with the refresh token a login returned revokes it |
| SessionProperties.ProfileRefusals | src/controllers/user.controller.ts:268-307 | no cookie is 401 'Not authentication'; every token jsonwebtoken refuses, whatever the reason, gets the same 401 'Invalid token' |
| SessionProperties.ProfileUserGone | src/controllers/user.controller.ts:284-292 | a verified token whose user is gone gets 404 |
| SessionProperties.LoginThenProfile | src/controllers/user.controller.ts:278-300 | the access token of a successful login opens the profile in the same second and yields the record without its password |
| SessionProperties.GoogleNoEmail | src/passport/passport-google-strategy.ts:23-28 | a profile without an email fails and creates nothing |
| SessionProperties.GoogleStoresNoSession | src/passport/passport-google-strategy.ts:45-54 | the callback writes no refresh row and no verification token |
| SessionProperties.GoogleExistingUser | src/passport/passport-google-strategy.ts:31 | an existing email is signed in as that user, whatever its provider, and nothing is written |
| SessionProperties.GoogleNewUser | src/passport/passport-google-strategy.ts:32-43 | a new email creates one verified Google user without a password with providerId and fullName from the profile; no name fails validation |
| SessionProperties.RegisterVerifyLogin | src/controllers/user.controller.ts:114-119 | register, verify within fifteen minutes, log in: the account is verified and login proceeds to issue a session |
| UserModel.Instantiate | src/models/user.model.ts:23-37 | a new user keeps the given password and provider, defaults to unverified and role 'user', and is valid exactly when fullName and email are non-empty |
| UserModel.SaveResult | src/models/user.model.ts:40-46 | save hashes the password only when it was modified and refuses an invalid user |
| UserModel.UserDocument.constructor | src/models/user.model.ts:23-37 | a new document holds Instantiate's record with its password marked modified when given |
| UserModel.UserDocument.Save | src/models/user.model.ts:40-46 | save in place applies SaveResult and clears the modified mark |
| UserModel.SaveTwice | src/models/user.model.ts:40-46 | saving a saved document again changes nothing: the password is never hashed twice |
| UserModel.IsPasswordCorrect | src/models/user.model.ts:49-60 | the bcrypt comparison with the stored hash, and 'Password comparison failed' when there is no stored password |
| UserModel.HashedPasswordIsCorrect | src/models/user.model.ts:49-60 | with a sound bcrypt, the raw password matches the hash save stored |
| UserModel.AccessPayload | src/models/user.model.ts:66-70 | the access payload is _id and email; userName is undefined on a user |
| UserModel.RefreshPayload | src/models/user.model.ts:88 | the refresh payload is _id only |
| UserModel.GenerateAccessToken | src/models/user.model.ts:63-80 | signs the access payload with the access secret and expiry, or throws 'Token generation failed' |
| UserModel.GenerateRefreshToken | src/models/user.model.ts:83-96 | throws 'Refresh token secret missing' without a secret, else signs the refresh payload with the refresh secret and expiry |
| UserModel.Filter | src/controllers/user.controller.ts:208-214 | the login reply carries only _id, fullName, email, role and image |
| UserModel.WithoutPassword | src/passport/passport-jwt-strategy.ts:23 | select('-password') drops the password and nothing else |
| TokenModel.CreateVerification | src/models/verificationtoken.model.ts:9-16 | a valid row with a fresh token is stored under it, and the collection stays valid |
| TokenModel.CreateRefresh | src/models/refreshtoken.model.ts:9-16 | a valid row with a fresh token is appended, and the collection stays valid |
| TokenModel.RowsOf | src/models/refreshtoken.model.ts:11 | the rows of one user, in order |
| TokenModel.DeleteOneByUser | src/controllers/user.controller.ts:183 | deleteOne({ user }) removes one row when the user has any |
| TokenModel.DeleteOneByUserRows | src/controllers/user.controller.ts:183 | it removes exactly the user's first row and leaves every other user's rows in order |
| TokenModel.DeleteOneByUserValid | src/controllers/user.controller.ts:183 | it keeps the unique token index satisfied |
| TokenModel.DeleteOneByToken | src/controllers/user.controller.ts:242 | findOneAndDelete({ token }) removes one row when a row holds the token |
| TokenModel.DeleteOneByTokenEffect | src/controllers/user.controller.ts:242 | afterwards no row holds the token, every other row is kept, the index holds |
| TokenModel.DeleteOneByTokenAbsent | src/controllers/user.controller.ts:242 | an unknown token changes nothing |
| TokenModel.SweepVerification | src/models/verificationtoken.model.ts:19 | the TTL monitor removes a picked row only at or after its expiresAt and keeps every other row unchanged |
| TokenModel.SweepRefresh | src/models/refreshtoken.model.ts:19 | the same for refresh rows |
| TokenModel.SweepValid | src/models/refreshtoken.model.ts:19 | a sweep keeps both collections valid |
| JwtStrategy.CookieExtractor | src/passport/passport-jwt-strategy.ts:8-10 | a token it returns is the accessToken cookie and is never empty |
| JwtStrategy.CookieExtractorReadsOnlyAccessToken | src/passport/passport-jwt-strategy.ts:8-10 | no other cookie affects the extracted token |
| JwtStrategy.Authenticate | src/passport/passport-jwt-strategy.ts:19-47 | an authenticated user is the stored user whose id the verified token carries, verified and without its password; no cookie means no token; the decision reaches the user lookup exactly when the token verifies |
| JwtStrategy.UnknownUserRefused | src/passport/passport-jwt-strategy.ts:22-30 | a verified token that carries no id, or an id no user holds, is refused with 'Invalid token or user not found.' |
| JwtStrategy.AuthenticateUsesAccessSecretAndHS256 | src/passport/passport-jwt-strategy.ts:12-16 | only the access secret and HS256 verification decide |
| JwtStrategy.UnverifiedRefused | src/passport/passport-jwt-strategy.ts:33-38 | a valid token for an unverified user is refused |
| JwtStrategy.AccessTokenAuthenticates | src/passport/passport-jwt-strategy.ts:19-47 | a freshly signed access token of a verified user authenticates that user without its password |
| GetAuth.GetAuth | src/utils/get-auth.ts:10-24 | returns exactly userId, email and role when all three are truthy, otherwise throws |
| GetAuth.RequestUserOf | src/passport/passport-jwt-strategy.ts:41 | req.user as the strategy sets it has no userId |
| GetAuth.GetAuthRejectsUserDocuments | src/utils/get-auth.ts:14 | so getAuth throws for every strategy-authenticated user |
| GetAuth.GetAuthStable | src/utils/get-auth.ts:10-24 | getAuth only reads: rebuilding a request from its answer gives the same answer |
| Text.Trim | src/models/course.model.ts:38 | the trim setter removes the surrounding whitespace and nothing else |
| Text.TrimIdempotent | src/models/course.model.ts:43 | a trimmed value is unchanged by a second trim |
| Text.TrimEmptyIffBlank | src/models/comment.model.ts:18-19 | trim yields "" exactly for whitespace-only input |
| Text.HexEncode | src/controllers/user.controller.ts:56 | two lower-case hex digits per byte |
| Text.HexRoundTrip | src/controllers/user.controller.ts:56 | hex decoding gives the bytes back |
| Text.ParseInt | src/controllers/course.controller.ts:32-33 | parseInt is NaN exactly when no digit follows the whitespace and sign |
| Text.ParseIntDecimal | src/controllers/course.controller.ts:224 | parseInt reads back any integer's decimal form and stops at the first non-digit |
| Text.NumberOf | src/controllers/user.controller.ts:190 | NumberOf, the model of Number() on optionally signed decimal digit runs, gives a number for a non-blank string only when the whole trimmed string is such a run |
| Text.NumberOfWithUnitIsNaN | src/config/index.ts:27 | Number("7d") is NaN |
| Text.NumberOfDecimal | src/controllers/user.controller.ts:190 | Number reads back any integer's decimal form |
| Text.Lower | src/controllers/course.controller.ts:28 | case folding for the 'i' option, character by character |
| Text.Utf16Length | src/models/course.model.ts:44 | the length maxlength compares is at least the character count and at most twice it |
| Text.Utf16LengthOfPlanes | src/models/comment.model.ts:19-20 | one unit per Basic Multilingual Plane character, two per character beyond it |
| Tables.Insert | src/models/course.model.ts:26-30 | an insert under a unique index succeeds exactly when the key is free, appending the row, else duplicate key |
| Tables.InsertKeepsUnique | src/models/chapter.model.ts:10 | an accepted insert keeps the index and the row is found under its key |
| Tables.FindBy | src/controllers/course.controller.ts:206 | findOne finds a document exactly when one holds the key, and it holds it |
| Tables.IndexBy | src/controllers/course.controller.ts:206 | the position of the first document holding the key |
| Tables.IndexByUnique | src/controllers/course.controller.ts:206 | under a unique index that position is the document's own |
| Tables.DeleteBy | src/controllers/course.controller.ts:307 | findOneAndDelete removes one document exactly when the key is held, and adds none |
| Tables.DeleteByEffect | src/controllers/course.controller.ts:307 | under a unique index it removes exactly the documents with that key, in order, and the index holds |
| Tables.Without | src/controllers/course.controller.ts:307 | the documents whose key differs, in order |
| Tables.WithoutUnique | src/controllers/course.controller.ts:307 | removing documents keeps every unique index |
| ChapterModel.CastChapter | src/models/chapter.model.ts:17-29 | title is trimmed, comments default to [] and are cast, the rest is kept |
| ChapterModel.AfterScheme | src/models/chapter.model.ts:36 | the optional http:// or https:// prefix is stripped |
| ChapterModel.UrlBodyCharset | src/models/chapter.model.ts:36 | every character of a matching URL is in [/\w.-] and the first in [\da-z.-] |
| ChapterModel.OutsideCharsetRefused | src/models/chapter.model.ts:36 | any character outside that set is refused |
| ChapterModel.VideoUrlIffBody | src/models/chapter.model.ts:36 | the pattern's three alternatives collapse into one: a URL matches exactly when what follows its optional scheme matches the host-and-path part |
| ChapterModel.UpperCaseSchemeRefused | src/models/chapter.model.ts:36 | the pattern is case-sensitive: HTTPS:// is refused |
| ChapterModel.PortRefused | src/models/chapter.model.ts:36 | a port number is refused |
| ChapterModel.QueryRefused | src/models/chapter.model.ts:36 | a query string is refused |
| ChapterModel.BodyOfParts | src/models/chapter.model.ts:36 | host, dot, top-level part of 2 to 6 characters and path form a match |
| ChapterModel.VideoUrlAccepts | src/models/chapter.model.ts:33-39 | a hosted URL with or without scheme is accepted |
| ChapterModel.NoVideoAccepted | src/models/chapter.model.ts:35 | an absent or empty video never invalidates a chapter |
| ChapterModel.ChapterDefaults | src/models/chapter.model.ts:17-29 | comments default to []; a whitespace-only title is refused |
| ChapterModel.CreateChapter | src/models/chapter.model.ts:7-11 | create succeeds exactly for a valid chapter with a free chapterId, appending it |
| ChapterModel.CreateChapterKeepsValid | src/models/chapter.model.ts:10 | an accepted insert keeps the collection valid |
| CommentModel.CastComment | src/models/comment.model.ts:15-21 | text is trimmed, the ids kept |
| CommentModel.CommentAccepted | src/models/comment.model.ts:6-21 | a comment is accepted exactly when both ids are present and the trimmed text is 1 to 500 UTF-16 units long |
| CommentModel.BlankCommentRefused | src/models/comment.model.ts:18-19 | whitespace-only text is refused |
| CommentModel.CastCommentIdempotent | src/models/comment.model.ts:18 | casting twice equals casting once |
| CommentModel.CreateComment | src/models/comment.model.ts:6-10 | create succeeds exactly for a valid comment with a free commentId |
| CommentModel.CreateCommentKeepsValid | src/models/comment.model.ts:9 | the collection stays valid and a second comment with that id is refused |
| SectionModel.CastSection | src/models/section.model.ts:8-33 | id and title trimmed, description defaults to "", chapters cast in order |
| SectionModel.SectionRefusals | src/models/section.model.ts:8-33 | no chapters, a blank id or a blank title is refused; a missing description is "" |
| SectionModel.SectionAccepted | src/models/section.model.ts:8-33 | a section is accepted exactly when its trimmed id and title are non-empty and it has at least one chapter, all accepted |
| SectionModel.CreateSection | src/models/section.model.ts:8-14 | create succeeds exactly for a valid section with a free sectionId |
| SectionModel.CreateSectionKeepsValid | src/models/section.model.ts:11 | an accepted insert keeps the collection valid |
| EnrollmentModel.NewEnrollment | src/models/enrollment.model.ts:7-36 | ids trimmed; the date defaults to now, status to 'active', progress to 0 |
| EnrollmentModel.EnrollmentDefaults | src/models/enrollment.model.ts:19-36 | an enrollment naming only user and course starts now, active, at 0, and is valid exactly when both ids are not blank |
| EnrollmentModel.CreateEnrollment | src/models/enrollment.model.ts:44 | create succeeds exactly for a valid enrollment whose (userId, courseId) is free |
| EnrollmentModel.EnrollTwiceRefused | src/models/enrollment.model.ts:44 | the collection stays valid and enrolling the same user in the same course again is refused |
| ProgressModel.CastChapterProgress | src/models/course.progress.model.ts:5-15 | chapterId is trimmed |
| ProgressModel.CastSectionProgress | src/models/course.progress.model.ts:24-38 | sectionId is trimmed and every chapter entry cast |
| ProgressModel.NewProgress | src/models/course.progress.model.ts:53-94 | ids trimmed, overallProgress defaults to 0, sections cast in order |
| ProgressModel.ChapterProgressRequired | src/models/course.progress.model.ts:6-14 | completed: false is accepted, a missing completed is refused, and so is a blank id |
| ProgressModel.ProgressRefusals | src/models/course.progress.model.ts:71-85 | overallProgress defaults to 0; no sections, or a section without chapters, is refused |
| ProgressModel.CreateProgress | src/models/course.progress.model.ts:97 | create succeeds exactly for a valid record whose (userId, courseId) is free |
| ProgressModel.ProgressTwiceRefused | src/models/course.progress.model.ts:97 | the collection stays valid and a second record for the same pair is refused |
| TransactionModel.NewTransaction | src/models/transaction.model.ts:17-21 | dateTime defaults to now; nothing is trimmed |
| TransactionModel.CreateTransaction | src/models/transaction.model.ts:12-16 | create succeeds exactly for a valid transaction with a free transactionId |
| TransactionModel.TransactionReplayRefused | src/models/transaction.model.ts:12-16 | a stored transaction is a Stripe payment of a non-negative amount, and replaying its transactionId is refused |
| CourseModel.TrimmedOpt | src/models/course.model.ts:46-50 | an optional trimmed path stores the trim of the given value |
| CourseModel.CourseRefusals | src/models/course.model.ts:40-79 | no sections, a blank required text path, a title over 100 or a description over 500 UTF-16 units is refused |
| CourseModel.EmojiTitleRefused | src/models/course.model.ts:40-45 | a title of 60 emoji, 120 UTF-16 units, is refused |
| CourseModel.WithoutKeepsValid | src/models/course.model.ts:26-30 | removing the courses holding a courseId keeps the collection valid, including the cross-course uniqueness of the embedded index values |
| CourseModel.ReplaceKeepsValid | src/models/course.model.ts:26-30 | replacing a course by a valid one with the same _id, whose courseId and embedded section, chapter, comment and enrollment index values no other course holds, keeps the collection valid |
| CourseModel.SectionIds | src/models/section.model.ts:7-13 | the values a course contributes to the sections.sectionId multikey index: exactly the sectionIds of its sections |
| CourseSpec.CategoryFilterOf | src/controllers/course.controller.ts:23-29 | a listed value, 'all' included, is an exact match; any other truthy value a pattern; an absent or empty value no filter |
| CourseSpec.Filtered | src/controllers/course.controller.ts:39 | find(filter) returns exactly the matching courses |
| CourseSpec.Window | src/controllers/course.controller.ts:40-41 | skip and limit select the courses from position skip on, at most limit of them |
| CourseSpec.CeilDivBounds | src/controllers/course.controller.ts:48 | the integer ceiling is the least count of pages covering the total |
| CourseSpec.QueryNumber | src/controllers/course.controller.ts:16-17 | an absent page or limit reads as its default |
| CourseSpec.ProductIsMul | src/controllers/course.controller.ts:34 | the skip computed by repeated addition is (pageNumber - 1) * pageSize |
| CourseSpec.PageOf | src/controllers/course.controller.ts:34-68 | a page is returned exactly when the reply is 200, otherwise the reply is the catch's 500; every listed course is one of the matches |
| CourseSpec.GetCourses | src/controllers/course.controller.ts:12-70 | the reply carries a page exactly when it is 200; otherwise it is the 500 of the catch block |
| CourseSpec.GetCourse | src/controllers/course.controller.ts:72-114 | an id that is not 24 hex digits is 400; a 200 carries a stored course whose _id is the id with its hex digits in lower case |
| CourseSpec.CreateImage | src/controllers/course.controller.ts:147-161 | no image gives "", and a thrown upload is exactly the failure |
| CourseSpec.NewCourse | src/controllers/course.controller.ts:164-177 | the new course has the given ids and image and empty sections and enrollments |
| CourseSpec.SaveNew | src/controllers/course.controller.ts:181 | save appends a course exactly when it is valid, its courseId and _id are free, and no stored course shares a value of an embedded unique index with it |
| CourseSpec.CreateCourse | src/controllers/course.controller.ts:116-197 | a course is returned exactly when the reply is 201; a reply with any other status leaves the collection unchanged |
| CourseSpec.NormalizePrice | src/controllers/course.controller.ts:223-235 | a truthy price is parseInt * 100 or refused as NaN; '' passes unchanged; an absent price is no change |
| CourseSpec.UpdateImage | src/controllers/course.controller.ts:238-251 | a truthy image becomes the secure URL, or undefined when the upload returned null, or fails when it threw; '' passes |
| CourseSpec.FillChapters | src/controllers/course.controller.ts:264-269 | the chapter list keeps its length and the counter advances by the number of chapters without an id |
| CourseSpec.FillSection | src/controllers/course.controller.ts:259-272 | a section is filled exactly when it has a chapter list, otherwise the map throws |
| CourseSpec.FillSections | src/controllers/course.controller.ts:259-272 | a filled list keeps its length; the counter never decreases |
| CourseSpec.UpdateSections | src/controllers/course.controller.ts:254-273 | without sections nothing is drawn or changed |
| CourseSpec.CastSections | src/controllers/course.controller.ts:276 | assigned sections are cast one by one, in order |
| CourseSpec.SaveExisting | src/controllers/course.controller.ts:277 | saving the course at position i succeeds exactly when it is valid, no other course holds its courseId, and no other course shares a sectionId, chapterId, commentId or enrollment (userId, courseId) pair with it; a valid course that fails gets the duplicate-key error |
| CourseSpec.UpdateOwned | src/controllers/course.controller.ts:223-280 | the owner's update replaces only position i with a valid course keeping its _id and enrollments and sharing no embedded index value with another course, or changes no course |
| CourseSpec.UpdateCourse | src/controllers/course.controller.ts:199-282 | a course is returned exactly when the reply is 200 |
| CourseSpec.DeleteCourse | src/controllers/course.controller.ts:284-312 | a course is returned exactly when the reply is 200; no identifier is drawn |
| CourseSpec.UploadVideo | src/controllers/course.controller.ts:314-382 | the upload's response is returned exactly when the reply is 200 |
| CourseStore.CourseStore.constructor | src/models/course.model.ts:91 | an empty, valid collection and a fresh identifier supply |
| CourseStore.CourseStore.FillChapters | src/controllers/course.controller.ts:264-269 | the chapter loop yields CourseSpec.FillChapters's list and counter |
| CourseStore.CourseStore.FillSections | src/controllers/course.controller.ts:259-272 | the section loop, stopping at the first section that throws, yields CourseSpec.FillSections |
| CourseStore.CourseStore.CreateCourse | src/controllers/course.controller.ts:116-197 | the in-place handler reaches CourseSpec.CreateCourse and keeps the collection valid |
| CourseStore.CourseStore.UpdateCourse | src/controllers/course.controller.ts:199-282 | the in-place handler, drawing ids as it goes, reaches CourseSpec.UpdateCourse and keeps the collection valid |
| CourseStore.CourseStore.DeleteCourse | src/controllers/course.controller.ts:284-312 | the in-place handler reaches CourseSpec.DeleteCourse and keeps the collection valid |
| CourseProperties.PageCoursesMatch | src/controllers/course.controller.ts:39-41 | every listed course is stored and passes the category filter |
| CourseProperties.AllIsALiteralCategory | src/controllers/course.controller.ts:23-29 | 'all' lists only courses whose category is 'all' |
| CourseProperties.PatternIgnoresCase | src/controllers/course.controller.ts:28 | an unlisted category matches case-insensitively and as a part: 'beginner' and 'BEG' find 'Beginner' |
| CourseProperties.ParsedPaging | src/controllers/course.controller.ts:32-63 | for any query whose page and limit parse to p, n >= 1: the matches from position Product(p-1, n) = (p-1)*n on (ProductIsMul), at most n of them, the count of all matches, ceil(count/n) pages, p and n echoed |
| CourseProperties.QueryNumberDecimal | src/controllers/course.controller.ts:32-33 | a page or limit written in decimal is read back as that number |
| CourseProperties.PageQuery | src/controllers/course.controller.ts:32-33 | the query a client writes with a category and a decimal page and limit asks for exactly those numbers |
| CourseProperties.DefaultPaging | src/controllers/course.controller.ts:16-17 | without page and limit the reply is the first ten matches, page 1 of size 10 |
| CourseProperties.EveryCourseOnItsPage | src/controllers/course.controller.ts:34-41 | for any query asking page i/n+1 of size n, the i-th match appears at position i%n of the reply |
| CourseProperties.TotalPagesIsLastPage | src/controllers/course.controller.ts:34-48 | with at least one match, the reply for page t = totalPages names t >= 1 pages and lists at least one course |
| CourseProperties.PageAfterLastEmpty | src/controllers/course.controller.ts:34-48 | page totalPages + 1 lists no course |
| CourseProperties.BadPagingRefused | src/controllers/course.controller.ts:32-68 | a query asking a page below 1, and the same query with its page or its limit replaced by a word, end in the 500 |
| CourseProperties.LetterIsNaN | src/controllers/course.controller.ts:32-33 | parseInt reads no number from a word beginning with a letter |
| CourseProperties.GetCourseLookup | src/controllers/course.controller.ts:77-99 | 404 exactly for a well-formed id whose lower-case form no course holds; otherwise 200 with the one course holding it |
| CourseProperties.GetCourseIgnoresCase | src/controllers/course.controller.ts:83 | any spelling of a stored _id, in upper, lower or mixed case, finds that course, as findById's ObjectId cast does |
| CourseProperties.CreateCourseRefusals | src/controllers/course.controller.ts:131-161 | missing fields 400, a bad teacher id 400, a thrown upload 500, in that order, changing nothing |
| CourseProperties.CreateCourseDefaults | src/controllers/course.controller.ts:164-177 | description '', price 0, level 'Beginner', status 'Draft', sections and enrollments empty; an unreadable price fails the cast |
| CourseProperties.CreateCourseNeverStores | src/controllers/course.controller.ts:175 | no request stores a course: past the checks the save fails with 500, only the drawn id is spent |
| CourseProperties.NewCourseUnsaveable | src/models/course.model.ts:76 | no course createCourse builds passes validation |
| CourseProperties.StrategyUsersCannotUpdateOrDelete | src/controllers/course.controller.ts:203 | for a strategy-authenticated user, update and delete throw and change nothing |
| CourseProperties.UnknownCourseNotFound | src/controllers/course.controller.ts:206-209 | an unknown courseId is 404 for update and delete, changing nothing |
| CourseProperties.OwnershipGate | src/controllers/course.controller.ts:212-220 | a caller who is not the course's teacher gets 403 on update and delete, changing nothing |
| CourseProperties.FindByUnique | src/controllers/course.controller.ts:290 | under a unique index findOne by a course's key finds that course |
| CourseProperties.OwnerUpdateRefusals | src/controllers/course.controller.ts:223-273 | NaN price 400, thrown upload 500, a section without chapters throws, in that order, storing nothing |
| CourseProperties.UpdateStores | src/controllers/course.controller.ts:276-280 | a successful update stores, at the course's position, the course merged with the normalised price, the uploaded image and the filled sections |
| CourseProperties.UpdateSharedSectionRefused | src/controllers/course.controller.ts:276-279 | an owner's update whose sections carry a sectionId another course already holds throws at save, and no course changes |
| CourseProperties.UpdateKeepsValid | src/controllers/course.controller.ts:199-282 | every update keeps the collection valid, touches no other course, keeps the course's _id, and never lowers the counter |
| CourseProperties.PriceInCents | src/controllers/course.controller.ts:224-234 | the decimal form of n followed by a non-digit stores 100*n, so "12.99" stores 1200 |
| CourseProperties.StoredPrice | src/controllers/course.controller.ts:234 | an updated course is valid, and the decimal price n is stored as 100*n |
| CourseProperties.UpdatePriceAndImage | src/controllers/course.controller.ts:223-251 | a negative price never succeeds; '' clears the price; an upload returning null clears the image |
| CourseProperties.AssignMerges | src/controllers/course.controller.ts:276 | Object.assign overwrites exactly the submitted paths through their setters, and an empty body changes nothing |
| CourseProperties.AssignIdempotent | src/controllers/course.controller.ts:276 | applying the same body twice equals applying it once |
| CourseProperties.Overlay | src/controllers/course.controller.ts:276 | the combined body takes each key from the second body when present |
| CourseProperties.AssignLaterWins | src/controllers/course.controller.ts:276 | two successive merges equal one merge with the second body laid over the first |
| CourseProperties.FillChaptersEffect | src/controllers/course.controller.ts:264-269 | the k-th chapter receives the draw after those of the chapters before it |
| CourseProperties.FilledChapterIds | src/controllers/course.controller.ts:265-267 | truthy chapterIds are kept, each missing one gets its own draw from the range used, and with a non-repeating supply they are pairwise distinct |
| CourseProperties.FillSectionEffect | src/controllers/course.controller.ts:260-269 | a filled section keeps a truthy id, else gets a draw, and its chapters are filled |
| CourseProperties.FillSectionsEffect | src/controllers/course.controller.ts:259-272 | the map succeeds exactly when every section has chapters; then every id is kept or freshly drawn and nothing else changes |
| CourseProperties.FillSectionsStopsAtError | src/controllers/course.controller.ts:264 | once a section throws, the later sections are not visited |
| CourseProperties.DeleteEffect | src/controllers/course.controller.ts:307 | the owner's delete removes exactly the course with that id, keeps the others in order and the collection valid; every other outcome changes nothing |
| CourseProperties.UploadVideoChecks | src/controllers/course.controller.ts:319-365 | 200 exactly when file, type, size, path and upload all pass; otherwise the first failing check decides |
| CourseProperties.VideoSizeBoundary | src/controllers/course.controller.ts:336-337 | exactly 500 MiB is accepted, one byte more refused, and a wrong type is refused for its type first |

## Left out

- AuthSpec.GoogleLogin, AuthStore.AuthStore.GoogleCallback, JwtStrategy.Authenticate: `src/passport/passport-google-strategy.ts:3` and `src/passport/passport-jwt-strategy.ts:3` import `{ UserModel }` from `src/models/user.model.ts`, which exports only `User` (line 99). As written, the build fails, or at run time `UserModel` is undefined and every lookup in both strategies throws, so every Google callback and every JWT authentication ends in an error. The model reads `UserModel` as the `User` model the import evidently means.
- I/O is not modelled. Its results enter as inputs: email delivery through Resend (`src/utils/send-email.ts`), the Cloudinary upload and its local-file unlink (`src/utils/cloudinary.ts`), `fs.existsSync`, and console logging.
- Express, passport and cookie plumbing is not modelled: routing, `asyncHandler`, cookie attributes and the JSON body `apiResponse` writes. A reply records the intended status, flag and message.
- The user controller calls `apiResponse(res, {...})` with one object. `src/utils/api-response.ts:21-28` reads that object as the success flag, so the HTTP status is 200 and the message is undefined. The model records the status and message each handler passes.
- The course routes declare `:id` (`src/routes/course.route.ts:19-24`) while the handlers read `req.params.courseId`, which is therefore undefined. As wired, getCourse throws on `courseId.match` and every request gets 500. updateCourse and deleteCourse pass `{ courseId: undefined }` to `findOne`, so the course they find does not depend on the URL. The model takes courseId as a parameter, as the handlers evidently mean.
- `populate('sections')` and `populate('teacherId')` in getCourse: sections are embedded, so populating them changes nothing. Populating teacherId with a string is not modelled.
- getCourse's catch block (500): `findById` is called only with a 24-hex id, for which the model has no failure.
- The category pattern is matched as a literal substring with ASCII case folding. Regular-expression metacharacters in a category and non-ASCII case folding are not modelled.
- `parseInt` and `Number` are modelled for optionally signed decimal digit runs. Hexadecimal, exponent, fractional and Infinity forms are not modelled, and neither are floating-point prices, durations and percentages.
- CourseSpec.PageOf: a NaN or negative skip is treated as the database error that reaches the catch block. A negative limit is applied as its absolute value, as the MongoDB driver does. Neither is visible in the handler's own text.
- CourseSpec.GetCourse: `findById` casts the id to an ObjectId, which the model renders as lower-casing its hex digits and comparing with the stored `_id`, always held as 24 lower-case hex digits. `ObjectId.isValid` also accepts any 12-character string. The model keeps only the handler's own 24-hex pattern for getCourse, and `IsObjectIdHex` for createCourse's teacher id.
- Request bodies are modelled as optional strings. A string `sections` value that the handler would `JSON.parse`, unknown keys in an update body, and `enrollments` or `_id` in an update body are not modelled.
- CourseSpec.SaveExisting, CourseSpec.SaveNew: Mongoose builds the unique indexes of the embedded section, chapter, comment and enrollment schemas in the course collection, under their path prefixes. The model enforces them across courses, not within one course, as MongoDB does. A document whose comment or enrollment arrays are all empty puts a null key into those multikey indexes, and the model does not treat that null as a value two courses may not share.
- `type: [Section]` in the course schema is taken as the embedded section schema.
- Mongoose validates only modified paths when saving an existing document. The model validates the whole course on every save; validation errors of untouched, already-stored paths cannot arise in a valid collection.
- updateCourse mutates the request's section and chapter objects in place. The model fills copies of them, because the request is not read afterwards.
- CourseProperties.FilledChapterIds: distinctness of generated ids is stated within one chapter list. Across sections of one request it follows from the disjoint draw ranges that FillSectionsEffect states, but it is not stated as one lemma.
- The TTL monitor's timing is not modelled. A sweep removes an arbitrary chosen subset of the expired rows.
- Timestamps (`createdAt`, `updatedAt`) are not modelled.
- Concurrency is not modelled: requests run one after another, so login's delete-then-create is not interleaved with anything.
- The database connection retry loop (`src/database/index.ts`) is not modelled, and neither is environment validation (`src/config`). Secrets and expiries are parameters.
- bcrypt and jsonwebtoken are not implemented. They are unspecified function values, and lemmas that need them to behave state that as a hypothesis (`BcryptSound`, `JwtSound`).
