/** The administrator's user-management page: its list filter, sort and
    counts, the UI-only status toggle and delete, and the create-applicant
    form with its mock creation. */
module UserManagement {
  import opened Wrappers
  import opened JsText
  import opened Json
  import opened Sorting
  import opened Emails
  import opened UserSchema
  import UserRoutes

  const APPLICANT := "applicant"
  const ADMIN := "admin"
  const ACTIVE := "Active"
  const DISABLED := "Disabled"
  const ALL := "All"

  /** A user object as the page holds it. The page reads every text field
      through `|| ""` and every timestamp through `|| 0`, so the empty string
      and 0 stand for a missing field; `key` is `_id || id`. */
  datatype Row = Row(
    key: string,
    fullName: string,
    email: string,
    role: string,
    status: string,
    createdAt: nat,
    updatedAt: nat)

  /** `u.status || "Active"`: a missing status counts as active. */
  function EffectiveStatus(u: Row): (s: string)
    ensures u.status != [] ==> s == u.status
  {
    if u.status == [] then ACTIVE else u.status
  }

  // ----- Form checks -----

  /** `passwordPolicyError(pw)`: only presence and length. */
  function PasswordPolicyError(pw: string): (r: Option<string>)
    ensures r.None? <==> |pw| >= PASSWORD_MIN
  {
    if pw == [] then Some("Password is required.")
    else if |pw| < PASSWORD_MIN then Some("Password must be at least 8 characters.")
    else None
  }

  /** `isAdmin`: the viewer's e-mail, lower-cased but not trimmed, is the
      reserved address. */
  predicate IsAdminViewer(viewerEmail: Option<string>) {
    ToLower(viewerEmail.GetOr("")) == RESERVED_ADMIN_EMAIL
  }

  /** `fullNameErr` once the field is touched. */
  function FullNameError(name: string): (r: Option<string>)
    ensures r.None? <==> NAME_MIN <= |Trim(name)| <= NAME_MAX
  {
    var t := Trim(name);
    if t == [] then Some("Full name is required.")
    else if |t| < NAME_MIN then Some("Full name must be at least 2 characters.")
    else if |t| > NAME_MAX then Some("Full name must be 80 characters or less.")
    else None
  }

  /** `emailErr` once the field is touched. */
  function EmailError(email: string): (r: Option<string>)
    ensures r.None? <==> IsValidEmail(Trim(email))
  {
    if Trim(email) == [] then Some("Email is required.")
    else if !IsValidEmail(Trim(email)) then Some("Enter a valid email address.")
    else None
  }

  /** `confirmErr` once the field is touched. */
  function ConfirmError(confirm: string, pw: string): (r: Option<string>)
    ensures r.None? <==> confirm != [] && confirm == pw
  {
    if confirm == [] then Some("Please confirm the password.")
    else if confirm != pw then Some("Passwords do not match.")
    else None
  }

  /** `canCreate` as the page writes it: the name only has to be non-blank. */
  predicate CanCreateAsWritten(viewerEmail: Option<string>, name: string, email: string, pw: string, confirm: string) {
    && IsAdminViewer(viewerEmail)
    && Trim(name) != []
    && IsValidEmail(Trim(email))
    && PasswordPolicyError(pw).None?
    && confirm == pw
  }

  /** The gate the form's own field errors describe: every field error
      clear, including the 2 to 80 characters of the name. */
  predicate CanCreate(viewerEmail: Option<string>, name: string, email: string, pw: string, confirm: string) {
    && IsAdminViewer(viewerEmail)
    && FullNameError(name).None?
    && EmailError(email).None?
    && PasswordPolicyError(pw).None?
    && ConfirmError(confirm, pw).None?
  }

  /** A body naming an applicant's three fields, as the route reads them. */
  function ApplicantBody(fullName: string, email: string, password: string): (r: Value)
    ensures Get(r, "fullName") == Str(fullName)
    ensures Get(r, "email") == Str(email)
    ensures Get(r, "password") == Str(password)
    ensures Get(r, "role") == Str(APPLICANT)
  {
    Obj(map[
      "fullName" := Str(fullName),
      "email" := Str(email),
      "password" := Str(password),
      "role" := Str(APPLICANT)])
  }

  /** The body the page posts to `/api/users/applicants`: the trimmed name,
      the trimmed lower-cased address and the password as typed. */
  function ApiPayload(name: string, email: string, pw: string): Value {
    ApplicantBody(Trim(name), ToLower(Trim(email)), pw)
  }

  /** The reserved address, as the viewer's e-mail, makes an admin viewer. */
  lemma ReservedViewerIsAdmin()
    ensures IsAdminViewer(Some(RESERVED_ADMIN_EMAIL))
  {
    ReservedAddressIsProtected();
  }

  /** "a@b.co" is a valid address that trimming and lower-casing leave alone. */
  lemma SampleAddressValid()
    ensures Trim("a@b.co") == "a@b.co" && ToLower("a@b.co") == "a@b.co" && IsValidEmail("a@b.co")
  {
    PlainAddressTrimmed("a@b.co");
    PlainAddressLowered("a@b.co");
    LetterAddressValid("a", "b", "co");
    assert "a" + "@" + "b" + "." + "co" == "a@b.co";
  }

  /** The gate as written lets a one-character name through, although the
      name's field error flags it (and the server refuses it, see
      `ShortNameRefusedByServer`). */
  lemma ShortNameSlipsThrough(viewer: Option<string>, name: string, email: string, pw: string)
    requires IsAdminViewer(viewer)
    requires |Trim(name)| == 1
    requires IsValidEmail(Trim(email)) && |pw| >= PASSWORD_MIN
    ensures CanCreateAsWritten(viewer, name, email, pw, pw)
    ensures FullNameError(name) == Some("Full name must be at least 2 characters.")
    ensures !CanCreate(viewer, name, email, pw, pw)
  {
  }

  /** Such a form exists: the reserved administrator creating "A" with
      "a@b.co" and the password "password". */
  lemma ShortNameExample()
    ensures IsAdminViewer(Some(RESERVED_ADMIN_EMAIL))
    ensures IsValidEmail("a@b.co")
    ensures CanCreateAsWritten(Some(RESERVED_ADMIN_EMAIL), "A", "a@b.co", "password", "password")
    ensures !CanCreate(Some(RESERVED_ADMIN_EMAIL), "A", "a@b.co", "password", "password")
  {
    ReservedViewerIsAdmin();
    SampleAddressValid();
    var name := "A";
    OneCharTrimmed(name);
    ShortNameSlipsThrough(Some(RESERVED_ADMIN_EMAIL), name, "a@b.co", "password");
  }

  /** One character that is not whitespace is its own trim. */
  lemma OneCharTrimmed(name: string)
    requires |name| == 1 && 'A' <= name[0] <= 'Z'
    ensures Trim(name) == name
  {
    assert 0x41 <= name[0] as int <= 0x5A;
    assert !IsWhitespace(name[0]);
    assert !HasWhitespace(name);
    NoWhitespaceTrimmed(name);
  }

  /** The server refuses every name shorter than two characters once
      trimmed, whatever the page sends with it. */
  lemma ShortNameRefusedByServer(name: string, email: string, pw: string)
    requires |Trim(name)| < NAME_MIN
    ensures UserRoutes.ApplicantRequestError(ApiPayload(name, email, pw)) ==
      Some("fullName is required (min 2 chars)")
  {
    TrimIdempotent(name);
  }

  /** A name the field error accepts passes the server's name check once
      trimmed. */
  lemma NameFieldAccepted(name: string)
    requires FullNameError(name).None?
    ensures IsNonEmptyString(Str(Trim(name))) && |Trim(Trim(name))| >= NAME_MIN
  {
    TrimIdempotent(name);
    TrimEmptyIff(Trim(name));
  }

  /** An address the field error accepts, trimmed and lower-cased, passes
      the server's e-mail checks. */
  lemma EmailFieldAccepted(email: string)
    requires EmailError(email).None?
    ensures IsNonEmptyString(Str(ToLower(Trim(email)))) && IsValidEmail(ToLower(Trim(email)))
  {
    var e := ToLower(Trim(email));
    ValidEmailLowered(Trim(email));
    assert |e| > 0 && !IsWhitespace(e[0]);
  }

  /** The corrected gate admits exactly the forms the server's request
      checks accept, except that the server also refuses an all-whitespace
      password. */
  lemma CanCreateMatchesServer(viewerEmail: Option<string>, name: string, email: string, pw: string, confirm: string)
    requires CanCreate(viewerEmail, name, email, pw, confirm)
    ensures UserRoutes.ApplicantRequestError(ApiPayload(name, email, pw)).None? <==> !IsBlank(pw)
  {
    var body := ApiPayload(name, email, pw);
    assert FullNameError(name).None? && EmailError(email).None? && PasswordPolicyError(pw).None?;
    NameFieldAccepted(name);
    EmailFieldAccepted(email);
    var fullName, e, password := Get(body, "fullName"), Get(body, "email"), Get(body, "password");
    assert IsNonEmptyString(fullName) && |Trim(fullName.s)| >= NAME_MIN;
    assert IsNonEmptyString(e) && IsValidEmail(e.s);
    assert |password.s| >= PASSWORD_MIN;
    assert IsNonEmptyString(password) <==> !IsBlank(pw);
  }

  // ----- The list -----

  /** `search.trim().toLowerCase()`. */
  function SearchTerm(search: string): (q: string)
    ensures |q| <= |search|
    ensures forall k :: 0 <= k < |q| ==> !IsAsciiUpper(q[k])
  {
    ToLower(Trim(search))
  }

  /** The search ignores case: an upper-cased and a lower-cased search find
      the same users. */
  lemma SearchIgnoresCase(search: string)
    ensures SearchTerm(ToLower(search)) == SearchTerm(search)
  {
    TrimToLowerCommute(search);
    ToLowerIdempotent(Trim(search));
  }

  /** Name or e-mail, lower-cased, contains the search term. */
  predicate MatchesSearch(u: Row, q: string) {
    Includes(ToLower(u.fullName), q) || Includes(ToLower(u.email), q)
  }

  /** Whether `filtered` keeps a user, all three filters at once. */
  predicate Kept(u: Row, q: string, showAllRoles: bool, statusFilter: string) {
    && (showAllRoles || u.role == APPLICANT)
    && (q == [] || MatchesSearch(u, q))
    && (statusFilter == ALL || EffectiveStatus(u) == statusFilter)
  }

  datatype SortMode = NameAsc | CreatedDesc | UpdatedDesc

  /** `sort`: "name_asc", "created_desc", and anything else sorts by last
      update. */
  function ParseSort(sort: string): SortMode {
    if sort == "name_asc" then NameAsc else if sort == "created_desc" then CreatedDesc else UpdatedDesc
  }

  /** `b.updatedAt || b.createdAt || 0`. */
  function LastTouched(u: Row): (t: nat)
    ensures t == 0 ==> u.updatedAt == 0 && u.createdAt == 0
  {
    if u.updatedAt != 0 then u.updatedAt else u.createdAt
  }

  /** The descending key of each order. `localeCompare` on names is given as
      `collation`, a rank of each name; ascending rank is descending negated
      rank. */
  function SortKey(mode: SortMode, collation: string -> int): Row -> int {
    match mode
    case NameAsc => (u: Row) => -collation(u.fullName)
    case CreatedDesc => (u: Row) => u.createdAt as int
    case UpdatedDesc => (u: Row) => LastTouched(u) as int
  }

  /** The three filters of `filtered` in turn: role, search, status. */
  function FilterStages(users: seq<Row>, q: string, showAllRoles: bool, statusFilter: string): seq<Row> {
    var byRole := if !showAllRoles then Filter(users, (u: Row) => u.role == APPLICANT) else users;
    var bySearch := if q != [] then Filter(byRole, (u: Row) => MatchesSearch(u, q)) else byRole;
    if statusFilter != ALL then Filter(bySearch, (u: Row) => EffectiveStatus(u) == statusFilter) else bySearch
  }

  /** Filtering in stages keeps exactly the users all three filters keep. */
  lemma FilterStagesCounts(users: seq<Row>, q: string, showAllRoles: bool, statusFilter: string)
    ensures forall x :: multiset(FilterStages(users, q, showAllRoles, statusFilter))[x] ==
                        (if Kept(x, q, showAllRoles, statusFilter) then multiset(users)[x] else 0)
  {
    var role := (u: Row) => u.role == APPLICANT;
    var search := (u: Row) => MatchesSearch(u, q);
    var status := (u: Row) => EffectiveStatus(u) == statusFilter;
    var byRole := if !showAllRoles then Filter(users, role) else users;
    var bySearch := if q != [] then Filter(byRole, search) else byRole;
    var r := if statusFilter != ALL then Filter(bySearch, status) else bySearch;
    assert r == FilterStages(users, q, showAllRoles, statusFilter);
    FilterCounts(users, role);
    FilterCounts(byRole, search);
    FilterCounts(bySearch, status);
    forall x
      ensures multiset(r)[x] == if Kept(x, q, showAllRoles, statusFilter) then multiset(users)[x] else 0
    {
      assert multiset(byRole)[x] == if showAllRoles || role(x) then multiset(users)[x] else 0;
      assert multiset(bySearch)[x] == if q == [] || search(x) then multiset(byRole)[x] else 0;
      assert multiset(r)[x] == if statusFilter == ALL || status(x) then multiset(bySearch)[x] else 0;
    }
  }

  /** `filtered`: the three filters, then the chosen order. */
  function Filtered(users: seq<Row>, search: string, showAllRoles: bool, statusFilter: string,
                    sort: string, collation: string -> int): (r: seq<Row>)
    ensures SortedDesc(r, SortKey(ParseSort(sort), collation))
    ensures forall x :: multiset(r)[x] == if Kept(x, SearchTerm(search), showAllRoles, statusFilter) then multiset(users)[x] else 0
  {
    var kept := FilterStages(users, SearchTerm(search), showAllRoles, statusFilter);
    FilterStagesCounts(users, SearchTerm(search), showAllRoles, statusFilter);
    SortDesc(kept, SortKey(ParseSort(sort), collation))
  }

  /** The listing never shows a user that is not in the list, nor one more
      often than it occurs there. */
  lemma FilteredIsSubMultiset(users: seq<Row>, search: string, showAllRoles: bool, statusFilter: string,
                              sort: string, collation: string -> int)
    ensures multiset(Filtered(users, search, showAllRoles, statusFilter, sort, collation)) <= multiset(users)
  {
    var r := Filtered(users, search, showAllRoles, statusFilter, sort, collation);
    forall x ensures multiset(r)[x] <= multiset(users)[x] {
    }
  }

  /** A user without a status is listed under "Active" and never under
      "Disabled". */
  lemma MissingStatusListedAsActive(u: Row, q: string, showAllRoles: bool)
    requires u.status == []
    ensures Kept(u, q, showAllRoles, ACTIVE) <==> Kept(u, q, showAllRoles, ALL)
    ensures !Kept(u, q, showAllRoles, DISABLED)
  {
  }

  // ----- Counts -----

  datatype Summary = Summary(total: nat, applicants: nat, admins: nat)

  function IsApplicantRow(u: Row): bool {
    u.role == APPLICANT
  }

  function IsAdminRow(u: Row): bool {
    u.role == ADMIN
  }

  /** `summary`: all users, and how many are applicants and admins. */
  function Summarize(users: seq<Row>): (s: Summary)
    ensures s.total == |users|
    ensures s.applicants + s.admins <= s.total
  {
    CountDisjoint(users);
    Summary(|users|, Count(users, IsApplicantRow), Count(users, IsAdminRow))
  }

  lemma {:induction false} CountDisjoint(users: seq<Row>)
    ensures Count(users, IsApplicantRow) + Count(users, IsAdminRow) <= |users|
    decreases |users|
  {
    if users != [] {
      CountDisjoint(users[1..]);
    }
  }

  /** The applicant count is the length of the default listing: applicants
      only, no search, every status. */
  lemma ApplicantCountIsDefaultListing(users: seq<Row>, sort: string, collation: string -> int)
    ensures Summarize(users).applicants == |Filtered(users, "", false, ALL, sort, collation)|
  {
    FilterLength(users, IsApplicantRow);
    assert SearchTerm("") == [];
    var p := (u: Row) => u.role == APPLICANT;
    FilterSamePredicate(users, p, IsApplicantRow);
    assert FilterStages(users, [], false, ALL) == Filter(users, p);
  }

  lemma {:induction false} FilterSamePredicate(xs: seq<Row>, p: Row -> bool, p': Row -> bool)
    requires forall x :: p(x) == p'(x)
    ensures Filter(xs, p) == Filter(xs, p')
    decreases |xs|
  {
    if xs != [] {
      FilterSamePredicate(xs[1..], p, p');
    }
  }

  // ----- UI-only edits -----

  /** `nextStatus`: a disabled user becomes active, any other disabled. */
  function NextStatus(u: Row): (s: string)
    ensures s == ACTIVE || s == DISABLED
    ensures s != EffectiveStatus(u)
  {
    if EffectiveStatus(u) == DISABLED then ACTIVE else DISABLED
  }

  /** `uiToggleDisable(u)` on the list: every user with `u`'s key takes the
      next status and the time of the change. */
  function ToggleDisable(users: seq<Row>, u: Row, now: nat): (r: seq<Row>)
    ensures |r| == |users|
    ensures forall i :: 0 <= i < |users| ==>
      && r[i].key == users[i].key
      && (users[i].key != u.key ==> r[i] == users[i])
      && (users[i].key == u.key ==> r[i] == users[i].(status := NextStatus(u), updatedAt := now))
  {
    seq(|users|, i requires 0 <= i < |users| =>
      if users[i].key == u.key then users[i].(status := NextStatus(u), updatedAt := now) else users[i])
  }

  /** The open detail panel after a toggle: updated when it shows that user. */
  function SelectedAfterToggle(selected: Option<Row>, u: Row, now: nat): (r: Option<Row>)
    ensures r.Some? <==> selected.Some?
    ensures selected.Some? && selected.value.key == u.key ==> r.value.status == NextStatus(u)
    ensures selected.Some? && selected.value.key == u.key ==>
      r == Some(selected.value.(status := NextStatus(u), updatedAt := now))
    ensures selected.Some? && selected.value.key != u.key ==> r == selected
  {
    match selected
    case None => None
    case Some(s) => if s.key == u.key then Some(s.(status := NextStatus(u), updatedAt := now)) else selected
  }

  /** Toggling a user twice, the second time from the row the first toggle
      produced, leaves every row with `u`'s key at `u`'s effective status
      (a row without a status comes back "Active") and every other row
      unchanged. */
  lemma ToggleTwiceRestores(users: seq<Row>, u: Row, t1: nat, t2: nat)
    requires EffectiveStatus(u) == ACTIVE || EffectiveStatus(u) == DISABLED
    ensures
      var u1 := u.(status := NextStatus(u), updatedAt := t1);
      var twice := ToggleDisable(ToggleDisable(users, u, t1), u1, t2);
      forall i :: 0 <= i < |users| ==>
        if users[i].key == u.key then twice[i].status == EffectiveStatus(u) else twice[i] == users[i]
  {
  }

  /** `uiDeleteUser(u)` once confirmed: every user with `u`'s key leaves the
      list; `confirmed` is the answer to `window.confirm`. */
  function DeleteRows(users: seq<Row>, u: Row, confirmed: bool): (r: seq<Row>)
    ensures !confirmed ==> r == users
    ensures confirmed ==> forall k :: 0 <= k < |r| ==> r[k].key != u.key
    ensures confirmed ==> forall x :: multiset(r)[x] == if x.key == u.key then 0 else multiset(users)[x]
  {
    if !confirmed then users
    else
      FilterCounts(users, (x: Row) => x.key != u.key);
      Filter(users, (x: Row) => x.key != u.key)
  }

  /** The detail panel after a delete: closed when it showed that user. */
  function SelectedAfterDelete(selected: Option<Row>, u: Row, confirmed: bool): (r: Option<Row>)
    ensures r.None? <==> selected.None? || (confirmed && selected.value.key == u.key)
    ensures r.Some? ==> r == selected
  {
    if confirmed && selected.Some? && selected.value.key == u.key then None else selected
  }

  // ----- Mock creation -----

  /** The row the mock `createApplicant` builds; `id` stands for
      `crypto.randomUUID()`. */
  function NewApplicantRow(name: string, email: string, id: string, now: nat): Row {
    Row(id, Trim(name), ToLower(Trim(email)), APPLICANT, ACTIVE, now, now)
  }

  /** The mock `createApplicant`, gated as the page writes it: with
      `canCreate` open, the new applicant goes in front of the list;
      otherwise the list stays as it is. */
  function MockCreateApplicant(users: seq<Row>, viewerEmail: Option<string>, name: string, email: string,
                               pw: string, confirm: string, id: string, now: nat): (r: seq<Row>)
    ensures !CanCreateAsWritten(viewerEmail, name, email, pw, confirm) ==> r == users
    ensures CanCreateAsWritten(viewerEmail, name, email, pw, confirm) ==>
      |r| == |users| + 1 && r[1..] == users && r[0] == NewApplicantRow(name, email, id, now)
  {
    if !IsAdminViewer(viewerEmail) || !CanCreateAsWritten(viewerEmail, name, email, pw, confirm) then users
    else [NewApplicantRow(name, email, id, now)] + users
  }

  /** The mock `createApplicant` behind the corrected gate. */
  function MockCreateApplicantCorrected(users: seq<Row>, viewerEmail: Option<string>, name: string, email: string,
                                        pw: string, confirm: string, id: string, now: nat): (r: seq<Row>)
    ensures !CanCreate(viewerEmail, name, email, pw, confirm) ==> r == users
    ensures CanCreate(viewerEmail, name, email, pw, confirm) ==>
      |r| == |users| + 1 && r[1..] == users && r[0] == NewApplicantRow(name, email, id, now)
  {
    if !IsAdminViewer(viewerEmail) || !CanCreate(viewerEmail, name, email, pw, confirm) then users
    else [NewApplicantRow(name, email, id, now)] + users
  }

  /** A row the mock creates behind the gate as written: a trimmed,
      non-empty name, the normalized e-mail, active status. The name may be
      a single character. */
  lemma MockRowFitsServerShape(viewerEmail: Option<string>, name: string, email: string, pw: string,
                               confirm: string, id: string, now: nat)
    requires CanCreateAsWritten(viewerEmail, name, email, pw, confirm)
    ensures
      var row := NewApplicantRow(name, email, id, now);
      && IsTrimmed(row.fullName) && |row.fullName| >= 1
      && row.email == NormalizeEmail(email)
      && IsNormalized(row.email)
      && IsValidEmail(row.email)
      && EffectiveStatus(row) == ACTIVE && row.role == APPLICANT
  {
    TrimIdempotent(name);
    ValidEmailLowered(Trim(email));
    NormalizeEmailIdempotent(email);
    NormalizedIff(NormalizeEmail(email));
  }

  /** Behind the corrected gate the mock row has exactly the shape the
      server stores: a trimmed name of 2 to 80 characters as well. */
  lemma CorrectedMockRowFitsServerShape(viewerEmail: Option<string>, name: string, email: string, pw: string,
                                        confirm: string, id: string, now: nat)
    requires CanCreate(viewerEmail, name, email, pw, confirm)
    ensures
      var row := NewApplicantRow(name, email, id, now);
      && IsTrimmed(row.fullName) && NAME_MIN <= |row.fullName| <= NAME_MAX
      && row.email == NormalizeEmail(email)
      && IsNormalized(row.email)
      && IsValidEmail(row.email)
      && EffectiveStatus(row) == ACTIVE && row.role == APPLICANT
  {
    ValidEmailLowered(Trim(email));
    NormalizeEmailIdempotent(email);
    NormalizedIff(NormalizeEmail(email));
  }

  /** In mock mode the page as written lists an applicant named "A", a name
      the server refuses, while the corrected gate leaves the list alone. */
  lemma MockListsShortName(users: seq<Row>, id: string, now: nat)
    ensures
      var viewer := Some(RESERVED_ADMIN_EMAIL);
      var r := MockCreateApplicant(users, viewer, "A", "a@b.co", "password", "password", id, now);
      && r == [NewApplicantRow("A", "a@b.co", id, now)] + users
      && |r[0].fullName| < NAME_MIN
      && UserRoutes.ApplicantRequestError(ApiPayload("A", "a@b.co", "password")).Some?
      && MockCreateApplicantCorrected(users, viewer, "A", "a@b.co", "password", "password", id, now) == users
  {
    ShortNameExample();
    OneCharTrimmed("A");
    ShortNameRefusedByServer("A", "a@b.co", "password");
  }
}
