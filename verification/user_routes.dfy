/** The administrator's user routes (`/api/users`): list, create an
    applicant, set a status and delete, over the user collection. Who may
    call them is not part of this model. */
module UserRoutes {
  import opened Wrappers
  import opened JsText
  import opened Json
  import opened Http
  import opened ObjectIds
  import opened Emails
  import opened UserSchema

  const INVALID_USER_ID := "Invalid user id"
  const USER_NOT_FOUND := "User not found"

  /** The request checks of `POST /api/users/applicants`, in the route's
      order: the message of the first that fails, `None` when all pass. */
  function ApplicantRequestError(body: Value): (r: Option<string>)
    ensures r.None? <==>
      && IsNonEmptyString(Get(body, "fullName")) && |Trim(Get(body, "fullName").s)| >= NAME_MIN
      && IsNonEmptyString(Get(body, "email")) && IsValidEmail(Get(body, "email").s)
      && IsNonEmptyString(Get(body, "password")) && |Get(body, "password").s| >= PASSWORD_MIN
    ensures !IsNonEmptyString(Get(body, "fullName")) || |Trim(Get(body, "fullName").s)| < NAME_MIN ==>
      r == Some("fullName is required (min 2 chars)")
    ensures IsNonEmptyString(Get(body, "fullName")) && |Trim(Get(body, "fullName").s)| >= NAME_MIN &&
            (!IsNonEmptyString(Get(body, "email")) || !IsValidEmail(Get(body, "email").s)) ==>
      r == Some("Valid email is required")
    ensures IsNonEmptyString(Get(body, "fullName")) && |Trim(Get(body, "fullName").s)| >= NAME_MIN &&
            IsNonEmptyString(Get(body, "email")) && IsValidEmail(Get(body, "email").s) &&
            (!IsNonEmptyString(Get(body, "password")) || |Get(body, "password").s| < PASSWORD_MIN) ==>
      r == Some("Password must be at least 8 characters")
  {
    var fullName := Get(body, "fullName");
    var email := Get(body, "email");
    var password := Get(body, "password");
    if !IsNonEmptyString(fullName) || |Trim(fullName.s)| < NAME_MIN then Some("fullName is required (min 2 chars)")
    else if !IsNonEmptyString(email) || !IsValidEmail(email.s) then Some("Valid email is required")
    else if !IsNonEmptyString(password) || |password.s| < PASSWORD_MIN then
      Some("Password must be at least 8 characters")
    else None
  }

  /** Creating an applicant once the request passed its checks: the reserved
      address is refused with 400 before anything else; otherwise the shared
      insert, with the applicant role. */
  function AddApplicant(store: UserStore, fullName: string, email: string, passwordHash: string, newId: string, now: nat)
    : (r: Handled<User, UserStore>)
    requires StoreOk(store) && newId !in store && IsValidEmail(email)
    ensures IsProtectedAdminEmail(email) ==>
      r == Handled(Error(BAD_REQUEST, "admin@gmail.com cannot be created as an applicant"), store)
    ensures !IsProtectedAdminEmail(email) ==>
      r == InsertNewUser(store, fullName, email, passwordHash, Applicant, newId, now)
    ensures Extends(store, r.store) && r.store.Keys <= store.Keys + {newId}
  {
    if IsProtectedAdminEmail(email) then
      Handled(Error(BAD_REQUEST, "admin@gmail.com cannot be created as an applicant"), store)
    else
      InsertNewUser(store, fullName, email, passwordHash, Applicant, newId, now)
  }

  /** `POST /api/users/applicants`. `passwordHash` is bcrypt's hash of the
      password; `newId` is the fresh document id. */
  function CreateApplicant(store: UserStore, body: Value, passwordHash: string, newId: string, now: nat)
    : (r: Handled<User, UserStore>)
    requires StoreOk(store) && newId !in store
    ensures ApplicantRequestError(body).Some? ==>
      r == Handled(Error(BAD_REQUEST, ApplicantRequestError(body).value), store)
    ensures ApplicantRequestError(body).None? ==>
      r == AddApplicant(store, Get(body, "fullName").s, Get(body, "email").s, passwordHash, newId, now)
  {
    match ApplicantRequestError(body)
    case Some(m) => Handled(Error(BAD_REQUEST, m), store)
    case None => AddApplicant(store, Get(body, "fullName").s, Get(body, "email").s, passwordHash, newId, now)
  }

  /** A created applicant never has a protected address. */
  lemma AddApplicantNeverProtected(store: UserStore, fullName: string, email: string, passwordHash: string, newId: string, now: nat)
    requires StoreOk(store) && newId !in store && IsValidEmail(email)
    ensures
      var r := AddApplicant(store, fullName, email, passwordHash, newId, now);
      r.response.Ok? ==> r.response.body.role == Applicant && !IsProtectedAdminEmail(r.response.body.email)
  {
    ProtectionIgnoresNormalization(email);
  }

  /** Creating an applicant never stores a protected address, keeps the
      collection valid, and leaves every existing user as it was. */
  lemma CreateApplicantSafe(store: UserStore, body: Value, passwordHash: string, newId: string, now: nat)
    requires StoreOk(store) && newId !in store
    ensures
      var r := CreateApplicant(store, body, passwordHash, newId, now);
      && StoreOk(r.store)
      && r.store.Keys <= store.Keys + {newId}
      && Extends(store, r.store)
      && (r.response.Ok? ==> r.response.body.role == Applicant && !IsProtectedAdminEmail(r.response.body.email))
  {
    match ApplicantRequestError(body)
    case Some(_) =>
      assert Extends(store, store);
    case None =>
      var fullName, email := Get(body, "fullName").s, Get(body, "email").s;
      var a := AddApplicant(store, fullName, email, passwordHash, newId, now);
      assert CreateApplicant(store, body, passwordHash, newId, now) == a;
      AddApplicantNeverProtected(store, fullName, email, passwordHash, newId, now);
      if IsProtectedAdminEmail(email) {
        assert a.store == store;
      } else {
        assert a == InsertNewUser(store, fullName, email, passwordHash, Applicant, newId, now);
      }
  }

  /** The status a `PATCH` body names: exactly "Active" or "Disabled". */
  function StatusFrom(status: Value): (r: Option<AccountStatus>)
    ensures r.Some? <==> status == Str("Active") || status == Str("Disabled")
    ensures r.Some? ==> status == Str(r.value.Name())
  {
    if status == Str("Active") then Some(Active)
    else if status == Str("Disabled") then Some(Disabled)
    else None
  }

  /** `PATCH /api/users/:id/status`. Only the status changes; the timestamps
      record the save only when the status actually changed. */
  function SetStatus(store: UserStore, id: string, body: Value, now: nat): (r: Handled<User, UserStore>)
    ensures !IsValidObjectId(id) ==> r.response == Error(BAD_REQUEST, INVALID_USER_ID)
    ensures IsValidObjectId(id) && StatusFrom(Get(body, "status")).None? ==>
      r.response == Error(BAD_REQUEST, "status must be Active or Disabled")
    ensures IsValidObjectId(id) && StatusFrom(Get(body, "status")).Some? && id !in store ==>
      r.response == Error(NOT_FOUND, USER_NOT_FOUND)
    ensures IsValidObjectId(id) && StatusFrom(Get(body, "status")).Some? && id in store &&
            IsProtectedAdminEmail(store[id].email) ==>
      r.response == Error(FORBIDDEN, "admin@gmail.com cannot be disabled")
    ensures id in store && IsProtectedAdminEmail(store[id].email) ==> r.store == store && r.response.Error?
    ensures r.response.Error? ==> r.store == store
    ensures r.response.Ok? ==>
      && id in store
      && r.store == store[id := r.response.body]
      && Get(body, "status") == Str(r.response.body.status.Name())
      && r.response.body.(status := store[id].status, updatedAt := store[id].updatedAt) == store[id]
      && r.response.body.updatedAt ==
           (if r.response.body.status == store[id].status then store[id].updatedAt else now)
  {
    if !IsValidObjectId(id) then Handled(Error(BAD_REQUEST, INVALID_USER_ID), store)
    else
      match StatusFrom(Get(body, "status"))
      case None => Handled(Error(BAD_REQUEST, "status must be Active or Disabled"), store)
      case Some(status) =>
        if id !in store then Handled(Error(NOT_FOUND, USER_NOT_FOUND), store)
        else if IsProtectedAdminEmail(store[id].email) then
          Handled(Error(FORBIDDEN, "admin@gmail.com cannot be disabled"), store)
        else
          var prior := store[id];
          var user := prior.(status := status, updatedAt := if status == prior.status then prior.updatedAt else now);
          Handled(Ok(OK, user), store[id := user])
  }

  /** Setting a status keeps the collection valid. */
  lemma SetStatusKeepsStoreOk(store: UserStore, id: string, body: Value, now: nat)
    requires StoreOk(store)
    ensures StoreOk(SetStatus(store, id, body, now).store)
  {
    var r := SetStatus(store, id, body, now);
    if r.response.Ok? {
      var u := r.response.body;
      assert u.(status := store[id].status, updatedAt := store[id].updatedAt) == store[id];
      assert u.email == store[id].email && u.fullName == store[id].fullName && u.passwordHash == store[id].passwordHash;
      ReplaceUserKeepsStoreOk(store, id, u);
    }
  }

  /** `DELETE /api/users/:id`: removes that one user unless the address is
      protected. */
  function DeleteUser(store: UserStore, id: string): (r: Handled<bool, UserStore>)
    ensures !IsValidObjectId(id) ==> r.response == Error(BAD_REQUEST, INVALID_USER_ID)
    ensures IsValidObjectId(id) && id !in store ==> r.response == Error(NOT_FOUND, USER_NOT_FOUND)
    ensures IsValidObjectId(id) && id in store && IsProtectedAdminEmail(store[id].email) ==>
      r.response == Error(FORBIDDEN, "admin@gmail.com cannot be deleted")
    ensures r.response.Ok? <==> IsValidObjectId(id) && id in store && !IsProtectedAdminEmail(store[id].email)
    ensures r.response.Ok? ==> r.store.Keys == store.Keys - {id}
    ensures forall k :: k in r.store ==> k in store && r.store[k] == store[k]
    ensures r.response.Error? ==> r.store == store
  {
    if !IsValidObjectId(id) then Handled(Error(BAD_REQUEST, INVALID_USER_ID), store)
    else if id !in store then Handled(Error(NOT_FOUND, USER_NOT_FOUND), store)
    else if IsProtectedAdminEmail(store[id].email) then
      Handled(Error(FORBIDDEN, "admin@gmail.com cannot be deleted"), store)
    else Handled(Ok(OK, true), store - {id})
  }

  /** The reserved administrator survives every user route unchanged: it is
      never disabled and never deleted (creating an applicant leaves every
      existing user be). */
  lemma ReservedAdminKeepsStatus(store: UserStore, admin: string, id: string, body: Value, now: nat)
    requires admin in store && IsProtectedAdminEmail(store[admin].email)
    ensures SetStatus(store, id, body, now).store[admin] == store[admin]
  {
    var r := SetStatus(store, id, body, now);
    if r.response.Ok? {
      assert id != admin;
    }
  }

  lemma ReservedAdminNotDeleted(store: UserStore, admin: string, id: string)
    requires admin in store && IsProtectedAdminEmail(store[admin].email)
    ensures admin in DeleteUser(store, id).store && DeleteUser(store, id).store[admin] == store[admin]
  {
    var r := DeleteUser(store, id);
    if r.response.Ok? {
      assert id != admin;
      assert admin in r.store.Keys;
    }
  }

  /** Deleting keeps the collection valid. */
  lemma DeleteUserKeepsStoreOk(store: UserStore, id: string)
    requires StoreOk(store)
    ensures StoreOk(DeleteUser(store, id).store)
  {
  }
}
