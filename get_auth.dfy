/** getAuth (src/utils/get-auth.ts): the presence check on the authenticated request
    user that the course handlers rely on. */
module GetAuth {
  import opened Wrappers
  import opened Text
  import opened UserModel

  /** The three properties getAuth reads from req.user; a property the object does not
      have is None. */
  datatype RequestUser = RequestUser(userId: Option<string>, email: Option<string>, role: Option<string>)

  datatype AuthInfo = AuthInfo(userId: string, email: string, role: string)

  const NotAuthenticated: string := "User not authenticated or missing user information"

  /** getAuth(req): the three fields when all are present and non-empty; otherwise it
      throws. It only reads the request. */
  function GetAuth(user: Option<RequestUser>): (r: Result<AuthInfo, string>)
    ensures r.Ok? <==> user.Some? && Truthy(user.value.userId) && Truthy(user.value.email) && Truthy(user.value.role)
    ensures r.Ok? ==> r.value == AuthInfo(user.value.userId.value, user.value.email.value, user.value.role.value)
    ensures r.Err? ==> r.error == NotAuthenticated
  {
    if user.Some? && Truthy(user.value.userId) && Truthy(user.value.email) && Truthy(user.value.role) then
      Ok(AuthInfo(user.value.userId.value, user.value.email.value, user.value.role.value))
    else Err(NotAuthenticated)
  }

  function RoleName(role: Role): string {
    match role
    case AdminRole => "admin"
    case UserRole => "user"
    case WriterRole => "writer"
  }

  /** req.user as the JWT strategy sets it: a User document, which has _id, email and
      role but no userId property. */
  function RequestUserOf(u: User): (r: RequestUser)
    ensures r.userId.None? && r.email == Some(u.email) && r.role == Some(RoleName(u.role))
  {
    RequestUser(None, Some(u.email), Some(RoleName(u.role)))
  }

  /** So getAuth throws for every user the JWT strategy authenticates: the update and
      delete handlers, which call it first, end in the error middleware's 500 for every
      request. */
  lemma GetAuthRejectsUserDocuments(u: User)
    ensures GetAuth(Some(RequestUserOf(u))) == Err(NotAuthenticated)
  {
  }

  /** getAuth is a check, not a transformation: what it returns is the request's own
      fields, so applying it to a request built from its answer gives the same answer. */
  lemma GetAuthStable(user: Option<RequestUser>)
    requires GetAuth(user).Ok?
    ensures var a := GetAuth(user).value;
      GetAuth(Some(RequestUser(Some(a.userId), Some(a.email), Some(a.role)))) == GetAuth(user)
  {
  }
}
