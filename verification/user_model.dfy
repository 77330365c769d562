/** The stored user document: the `User` schema, and the user collection with
    its unique e-mail index. */
module UserSchema {
  import opened Wrappers
  import opened JsText
  import opened Emails
  import opened Http

  const NAME_MIN: nat := 2
  const NAME_MAX: nat := 80

  /** The shortest password the routes accept, counted before hashing. */
  const PASSWORD_MIN: nat := 8

  /** The `role` enum, `applicant` by default. */
  datatype Role = Admin | Applicant {
    function Name(): string {
      match this
      case Admin => "admin"
      case Applicant => "applicant"
    }
  }

  /** The `status` enum, `Active` by default. */
  datatype AccountStatus = Active | Disabled {
    function Name(): string {
      match this
      case Active => "Active"
      case Disabled => "Disabled"
    }
  }

  /** A stored user; the timestamps are abstract clock readings. */
  datatype User = User(
    fullName: string,
    email: string,
    passwordHash: string,
    role: Role,
    status: AccountStatus,
    createdAt: nat,
    updatedAt: nat)

  /** What the schema demands of a stored user: a trimmed name of 2 to 80
      characters, a non-empty e-mail stored trimmed and lower-cased, and a
      password hash. */
  predicate UserSchemaOk(u: User) {
    && IsTrimmed(u.fullName)
    && NAME_MIN <= |u.fullName| <= NAME_MAX
    && u.email != []
    && IsNormalized(u.email)
    && u.passwordHash != []
  }

  /** The user collection: document id to document. */
  type UserStore = map<string, User>

  /** The unique index on `email`. */
  predicate UniqueEmails(store: UserStore) {
    forall a, b :: a in store && b in store && store[a].email == store[b].email ==> a == b
  }

  /** Every stored user fits the schema and no two share an e-mail. */
  predicate StoreOk(store: UserStore) {
    && (forall id :: id in store ==> UserSchemaOk(store[id]))
    && UniqueEmails(store)
  }

  /** Some stored user has this e-mail (`User.findOne({ email })` finds one). */
  predicate EmailTaken(store: UserStore, email: string) {
    exists id :: id in store && store[id].email == email
  }

  /** The id of the one user with this e-mail, if any: `User.findOne({ email })`
      under the unique index. */
  function FindByEmail(store: UserStore, email: string): (r: Option<string>)
    requires UniqueEmails(store)
    ensures r.Some? <==> EmailTaken(store, email)
    ensures r.Some? ==> r.value in store && store[r.value].email == email
  {
    if EmailTaken(store, email) then
      var id :| id in store && store[id].email == email;
      Some(id)
    else None
  }

  /** Adding a user whose e-mail is not taken keeps the index unique, and
      the collection valid when the new user fits the schema. */
  lemma AddUserKeepsStoreOk(store: UserStore, id: string, u: User)
    requires StoreOk(store) && id !in store
    requires !EmailTaken(store, u.email) && UserSchemaOk(u)
    ensures StoreOk(store[id := u])
  {
    var s := store[id := u];
    assert forall b :: b in store ==> store[b].email != u.email;
    assert UniqueEmails(s) by {
      forall a, b | a in s && b in s && s[a].email == s[b].email
        ensures a == b
      {
        if a != id && b != id {
          assert store[a].email == store[b].email;
        }
      }
    }
    assert forall k :: k in s ==> UserSchemaOk(s[k]) by {
      forall k | k in s ensures UserSchemaOk(s[k]) {
        if k != id {
          assert s[k] == store[k];
        }
      }
    }
  }

  /** Replacing a user by one with the same e-mail that fits the schema
      keeps the collection valid. */
  lemma ReplaceUserKeepsStoreOk(store: UserStore, id: string, u: User)
    requires StoreOk(store) && id in store
    requires u.email == store[id].email && UserSchemaOk(u)
    ensures StoreOk(store[id := u])
  {
    var s := store[id := u];
    assert forall k :: k in s ==> s[k].email == store[k].email;
    assert forall k :: k in s ==> UserSchemaOk(s[k]) by {
      forall k | k in s ensures UserSchemaOk(s[k]) {
        if k != id {
          assert s[k] == store[k];
        }
      }
    }
  }

  /** `User.create`: the schema's validators run first, and a document that
      fails them (a name outside 2..80 once trimmed, an empty hash) is
      refused with `None`; otherwise it is stored under the fresh id. */
  function CreateUser(store: UserStore, newId: string, u: User): (r: Option<UserStore>)
    requires StoreOk(store) && newId !in store && !EmailTaken(store, u.email)
    requires IsTrimmed(u.fullName) && u.email != [] && IsNormalized(u.email)
    ensures r.Some? <==> NAME_MIN <= |u.fullName| <= NAME_MAX && u.passwordHash != []
    ensures r.Some? ==> r.value == store[newId := u] && StoreOk(r.value) && newId in r.value
  {
    if |u.fullName| < NAME_MIN || |u.fullName| > NAME_MAX || u.passwordHash == [] then None
    else
      AddUserKeepsStoreOk(store, newId, u);
      Some(store[newId := u])
  }

  /** The tail of a creating route: `User.create` and the 201 answer, or the
      500 the route's `catch` gives when the schema refuses the document. */
  function SaveUser(store: UserStore, newId: string, u: User): (r: Handled<User, UserStore>)
    requires StoreOk(store) && newId !in store && !EmailTaken(store, u.email)
    requires IsTrimmed(u.fullName) && u.email != [] && IsNormalized(u.email)
    ensures r.response.Ok? <==> NAME_MIN <= |u.fullName| <= NAME_MAX && u.passwordHash != []
    ensures r.response.Error? ==> r == Handled(ServerError(), store)
    ensures r.response.Ok? ==> r.response == Ok(CREATED, u) && r.store == store[newId := u] && StoreOk(r.store)
  {
    match CreateUser(store, newId, u)
    case None => Handled(ServerError(), store)
    case Some(stored) => Handled(Ok(CREATED, u), stored)
  }

  /** `after` keeps every user of `before` as it was. */
  predicate Extends(before: UserStore, after: UserStore) {
    forall k :: k in before ==> k in after && after[k] == before[k]
  }

  /** Storing under a fresh id keeps everyone else. */
  lemma InsertExtends(store: UserStore, newId: string, u: User)
    requires newId !in store
    ensures Extends(store, store[newId := u]) && store[newId := u].Keys == store.Keys + {newId}
  {
  }

  /** The shared tail of registration and applicant creation: a taken
      address is refused with 409 (`Email already registered`), a document
      the schema refuses gives 500, otherwise an active user with the trimmed
      name, the normalized address and the given role is stored. */
  function InsertNewUser(store: UserStore, fullName: string, email: string, passwordHash: string, role: Role,
                         newId: string, now: nat): (r: Handled<User, UserStore>)
    requires StoreOk(store) && newId !in store && IsValidEmail(email)
    ensures r.response.Error? ==> r.store == store
    ensures Extends(store, r.store) && r.store.Keys <= store.Keys + {newId} && StoreOk(r.store)
    ensures r.response.Error? && r.response.status == CONFLICT <==> EmailTaken(store, NormalizeEmail(email))
    ensures r.response.Ok? <==>
      !EmailTaken(store, NormalizeEmail(email)) && NAME_MIN <= |Trim(fullName)| <= NAME_MAX && passwordHash != []
    ensures r.response.Ok? ==>
      && r.response.status == CREATED
      && r.store == store[newId := r.response.body]
      && StoreOk(r.store)
      && r.response.body == User(Trim(fullName), NormalizeEmail(email), passwordHash, role, Active, now, now)
  {
    var normalized := NormalizeEmail(email);
    if EmailTaken(store, normalized) then
      assert Extends(store, store);
      Handled(Error(CONFLICT, "Email already registered"), store)
    else
      NormalizeEmailNonEmpty(email);
      var u := User(Trim(fullName), normalized, passwordHash, role, Active, now, now);
      InsertExtends(store, newId, u);
      SaveUser(store, newId, u)
  }
}
