/** The account routes (`/api/auth`): register, login and `/me`. The bcrypt
    hash of a new password and the bcrypt comparison are parameters; the
    signed token is left out, so a success answers with the user. */
module AuthRoutes {
  import opened Wrappers
  import opened JsText
  import opened Json
  import opened Http
  import opened ObjectIds
  import opened Emails
  import opened UserSchema

  const CREDENTIALS_REJECTED := "Invalid email or password"
  const ACCOUNT_DISABLED := "Account is disabled"

  /** The role registration gives: admin exactly for the reserved address. */
  function RoleFor(normalized: string): (r: Role)
    ensures r == Admin <==> normalized == RESERVED_ADMIN_EMAIL
  {
    if normalized == RESERVED_ADMIN_EMAIL then Admin else Applicant
  }

  /** The request checks of `POST /api/auth/register`, in the route's order:
      the message of the first that fails, `None` when all pass. */
  function RegisterRequestError(body: Value): (r: Option<string>)
    ensures r.None? <==>
      && IsNonEmptyString(Get(body, "fullName"))
      && IsNonEmptyString(Get(body, "email"))
      && IsNonEmptyString(Get(body, "password"))
      && IsValidEmail(Get(body, "email").s)
      && |Get(body, "password").s| >= PASSWORD_MIN
    ensures !IsNonEmptyString(Get(body, "fullName")) || !IsNonEmptyString(Get(body, "email")) ||
            !IsNonEmptyString(Get(body, "password")) ==>
      r == Some("fullName, email, and password are required")
    ensures IsNonEmptyString(Get(body, "fullName")) && IsNonEmptyString(Get(body, "email")) &&
            IsNonEmptyString(Get(body, "password")) && !IsValidEmail(Get(body, "email").s) ==>
      r == Some("Invalid email format")
    ensures IsNonEmptyString(Get(body, "fullName")) && IsNonEmptyString(Get(body, "email")) &&
            IsNonEmptyString(Get(body, "password")) && IsValidEmail(Get(body, "email").s) &&
            |Get(body, "password").s| < PASSWORD_MIN ==>
      r == Some("Password must be at least 8 characters")
  {
    var fullName := Get(body, "fullName");
    var email := Get(body, "email");
    var password := Get(body, "password");
    if !IsNonEmptyString(fullName) || !IsNonEmptyString(email) || !IsNonEmptyString(password) then
      Some("fullName, email, and password are required")
    else if !IsValidEmail(email.s) then Some("Invalid email format")
    else if |password.s| < PASSWORD_MIN then Some("Password must be at least 8 characters")
    else None
  }

  /** Registration once the request passed its checks: the shared insert,
      with the role the address earns. */
  function RegisterUser(store: UserStore, fullName: string, email: string, passwordHash: string, newId: string, now: nat)
    : (r: Handled<User, UserStore>)
    requires StoreOk(store) && newId !in store && IsValidEmail(email)
    ensures r.response.Ok? ==> (r.response.body.role == Admin <==> IsProtectedAdminEmail(email))
    ensures r == InsertNewUser(store, fullName, email, passwordHash, RoleFor(NormalizeEmail(email)), newId, now)
  {
    InsertNewUser(store, fullName, email, passwordHash, RoleFor(NormalizeEmail(email)), newId, now)
  }

  /** `POST /api/auth/register`. `passwordHash` is what bcrypt produced for
      the password; `newId` is the fresh document id. */
  function Register(store: UserStore, body: Value, passwordHash: string, newId: string, now: nat)
    : (r: Handled<User, UserStore>)
    requires StoreOk(store) && newId !in store
    ensures RegisterRequestError(body).Some? ==>
      r == Handled(Error(BAD_REQUEST, RegisterRequestError(body).value), store)
    ensures RegisterRequestError(body).None? ==>
      r == RegisterUser(store, Get(body, "fullName").s, Get(body, "email").s, passwordHash, newId, now)
  {
    match RegisterRequestError(body)
    case Some(m) => Handled(Error(BAD_REQUEST, m), store)
    case None => RegisterUser(store, Get(body, "fullName").s, Get(body, "email").s, passwordHash, newId, now)
  }

  /** What registration accepts, stated field by field. */
  predicate RegisterAccepted(store: UserStore, body: Value, passwordHash: string) {
    var fullName := Get(body, "fullName");
    var email := Get(body, "email");
    var password := Get(body, "password");
    && IsNonEmptyString(fullName) && IsNonEmptyString(email) && IsNonEmptyString(password)
    && IsValidEmail(email.s)
    && |password.s| >= PASSWORD_MIN
    && !EmailTaken(store, NormalizeEmail(email.s))
    && NAME_MIN <= |Trim(fullName.s)| <= NAME_MAX
    && passwordHash != []
  }

  lemma RegisterSucceedsIff(store: UserStore, body: Value, passwordHash: string, newId: string, now: nat)
    requires StoreOk(store) && newId !in store
    ensures Register(store, body, passwordHash, newId, now).response.Ok? <==> RegisterAccepted(store, body, passwordHash)
  {
    if RegisterRequestError(body).None? {
      var fullName, email := Get(body, "fullName").s, Get(body, "email").s;
      assert Register(store, body, passwordHash, newId, now) == RegisterUser(store, fullName, email, passwordHash, newId, now);
    }
  }

  /** `POST /api/auth/login`. `passwordMatches(password, hash)` is bcrypt's
      comparison. The decision order: required fields, format, unknown
      address, disabled account, wrong password. */
  function Login(store: UserStore, body: Value, passwordMatches: (string, string) -> bool): (r: Response<User>)
    requires UniqueEmails(store)
    ensures r.Ok? ==>
      && r.status == OK
      && IsNonEmptyString(Get(body, "email")) && IsNonEmptyString(Get(body, "password"))
      && IsValidEmail(Get(body, "email").s)
      && EmailTaken(store, NormalizeEmail(Get(body, "email").s))
      && r.body.email == NormalizeEmail(Get(body, "email").s)
      && r.body.status == Active
      && passwordMatches(Get(body, "password").s, r.body.passwordHash)
      && exists id :: id in store && store[id] == r.body
    ensures !IsNonEmptyString(Get(body, "email")) || !IsNonEmptyString(Get(body, "password")) ==>
      r == Error(BAD_REQUEST, "email and password are required")
    ensures IsNonEmptyString(Get(body, "email")) && IsNonEmptyString(Get(body, "password")) &&
            !IsValidEmail(Get(body, "email").s) ==>
      r == Error(BAD_REQUEST, "Invalid email format")
    ensures r.Error? && r.status == FORBIDDEN ==> r.message == ACCOUNT_DISABLED
    ensures r.Error? && r.status == UNAUTHORIZED ==> r.message == CREDENTIALS_REJECTED
  {
    var email := Get(body, "email");
    var password := Get(body, "password");
    if !IsNonEmptyString(email) || !IsNonEmptyString(password) then
      Error(BAD_REQUEST, "email and password are required")
    else if !IsValidEmail(email.s) then Error(BAD_REQUEST, "Invalid email format")
    else
      match FindByEmail(store, NormalizeEmail(email.s))
      case None => Error(UNAUTHORIZED, CREDENTIALS_REJECTED)
      case Some(id) =>
        var user := store[id];
        match user.status
        case Disabled => Error(FORBIDDEN, ACCOUNT_DISABLED)
        case Active =>
          if !passwordMatches(password.s, user.passwordHash) then Error(UNAUTHORIZED, CREDENTIALS_REJECTED)
          else Ok(OK, user)
  }

  /** An unknown address and a wrong password give the same answer, and a
      disabled account is refused whether or not the password is right. */
  lemma LoginOutcomes(store: UserStore, body: Value, passwordMatches: (string, string) -> bool)
    requires UniqueEmails(store)
    requires IsNonEmptyString(Get(body, "email")) && IsNonEmptyString(Get(body, "password"))
    requires IsValidEmail(Get(body, "email").s)
    ensures
      var normalized := NormalizeEmail(Get(body, "email").s);
      var r := Login(store, body, passwordMatches);
      && (!EmailTaken(store, normalized) ==> r == Error(UNAUTHORIZED, CREDENTIALS_REJECTED))
      && (forall id :: id in store && store[id].email == normalized ==>
            && (store[id].status == Disabled ==> r == Error(FORBIDDEN, ACCOUNT_DISABLED))
            && (store[id].status == Active && !passwordMatches(Get(body, "password").s, store[id].passwordHash) ==>
                  r == Error(UNAUTHORIZED, CREDENTIALS_REJECTED)))
  {
  }

  /** A well-formed request for the address of an active user whose
      password matches logs that user in. */
  lemma LoginFindsUser(store: UserStore, body: Value, passwordMatches: (string, string) -> bool, id: string)
    requires UniqueEmails(store)
    requires IsNonEmptyString(Get(body, "email")) && IsNonEmptyString(Get(body, "password"))
    requires IsValidEmail(Get(body, "email").s)
    requires id in store && store[id].email == NormalizeEmail(Get(body, "email").s)
    requires store[id].status == Active && passwordMatches(Get(body, "password").s, store[id].passwordHash)
    ensures Login(store, body, passwordMatches) == Ok(OK, store[id])
  {
    var found := FindByEmail(store, NormalizeEmail(Get(body, "email").s));
    assert found == Some(id);
  }

  /** Whoever registers can then log in with the same request body, given
      the password bcrypt accepts against the stored hash. */
  lemma RegisterThenLogin(store: UserStore, body: Value, passwordHash: string, newId: string, now: nat,
                          passwordMatches: (string, string) -> bool)
    requires StoreOk(store) && newId !in store
    requires Register(store, body, passwordHash, newId, now).response.Ok?
    requires passwordMatches(Get(body, "password").s, passwordHash)
    ensures
      var r := Register(store, body, passwordHash, newId, now);
      Login(r.store, body, passwordMatches) == Ok(OK, r.response.body)
  {
    var r := Register(store, body, passwordHash, newId, now);
    assert RegisterRequestError(body).None?;
    var email := Get(body, "email").s;
    assert r == RegisterUser(store, Get(body, "fullName").s, email, passwordHash, newId, now);
    assert r.store[newId] == r.response.body;
    LoginFindsUser(r.store, body, passwordMatches, newId);
  }

  /** `GET /api/auth/me` for the user id of a verified token. */
  function Me(store: UserStore, userId: string): (r: Response<User>)
    ensures r.Ok? <==> IsValidObjectId(userId) && userId in store && store[userId].status == Active
    ensures r.Ok? ==> r == Ok(OK, store[userId])
    ensures IsValidObjectId(userId) && userId !in store ==> r == Error(NOT_FOUND, "User not found")
    ensures IsValidObjectId(userId) && userId in store && store[userId].status == Disabled ==>
      r == Error(FORBIDDEN, ACCOUNT_DISABLED)
  {
    if !IsValidObjectId(userId) then ServerError()
    else if userId !in store then Error(NOT_FOUND, "User not found")
    else if store[userId].status == Disabled then Error(FORBIDDEN, ACCOUNT_DISABLED)
    else
      assert store[userId].status == Active;
      Ok(OK, store[userId])
  }
}
