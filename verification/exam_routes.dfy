/** The exam routes (`/api/exams`): create, list, get, update and delete, each
    scoped to the signed-in owner, over an abstract store of exam documents
    keyed by id. `Number(...)` is the given function `number`; the clock
    reading and the id of a new document are parameters. */
module ExamRoutes {
  import opened Wrappers
  import opened JsText
  import opened Json
  import opened Http
  import opened ObjectIds
  import opened Sorting
  import opened QuestionValidator
  import opened ExamSchema

  /** The exam collection: document id to document. */
  type ExamStore = map<string, Exam>

  const INVALID_ID := "Invalid exam id"
  const EXAM_NOT_FOUND := "Exam not found"

  /** Exam `id` exists and belongs to `caller`. */
  predicate Owned(store: ExamStore, caller: string, id: string) {
    id in store && store[id].createdBy == caller
  }

  /** Every stored exam keeps the document invariant. */
  predicate StoreInvariant(store: ExamStore) {
    forall id :: id in store ==> ExamInvariant(store[id])
  }

  /** The questions of a create request: `questions || []`. */
  function CreateQuestions(body: Value): Value {
    OrElse(Get(body, "questions"), Arr([]))
  }

  /** The request checks of `POST /api/exams`, in the route's order: the
      message of the first one that fails, `None` when all pass. */
  function CreateRequestError(body: Value, number: Value -> NumberValue): (r: Option<string>)
    ensures !IsNonEmptyString(Get(body, "examTitle")) ==> r == Some("examTitle is required")
    ensures IsNonEmptyString(Get(body, "examTitle")) && !IsNonEmptyString(Get(body, "department")) ==>
      r == Some("department is required")
    ensures IsNonEmptyString(Get(body, "examTitle")) && IsNonEmptyString(Get(body, "department")) &&
            !number(Get(body, "durationMinutes")).IsPositive() ==>
      r == Some("durationMinutes must be a positive number")
    ensures IsNonEmptyString(Get(body, "examTitle")) && IsNonEmptyString(Get(body, "department")) &&
            number(Get(body, "durationMinutes")).IsPositive() ==>
      && (ValidateQuestions(CreateQuestions(body)).None? ==> r == None)
      && (ValidateQuestions(CreateQuestions(body)).Some? ==>
            r == Some(ValidateQuestions(CreateQuestions(body)).value.Message()))
  {
    if !IsNonEmptyString(Get(body, "examTitle")) then Some("examTitle is required")
    else if !IsNonEmptyString(Get(body, "department")) then Some("department is required")
    else if !number(Get(body, "durationMinutes")).IsPositive() then Some("durationMinutes must be a positive number")
    else
      match ValidateQuestions(CreateQuestions(body))
      case Some(e) => Some(e.Message())
      case None => None
  }

  /** What the create checks accept, stated field by field. */
  predicate CreateRequestOk(body: Value, number: Value -> NumberValue) {
    var qs := CreateQuestions(body);
    && IsNonEmptyString(Get(body, "examTitle"))
    && IsNonEmptyString(Get(body, "department"))
    && number(Get(body, "durationMinutes")).IsPositive()
    && qs.Arr?
    && forall i :: 0 <= i < |qs.items| ==> IsAcceptableQuestion(qs.items[i])
  }

  lemma CreateRequestErrorIff(body: Value, number: Value -> NumberValue)
    ensures CreateRequestError(body, number) == None <==> CreateRequestOk(body, number)
  {
    ValidateQuestionsIff(CreateQuestions(body));
  }

  /** The status a created exam gets: published only for exactly "published". */
  function CreateStatus(status: Value): (s: ExamStatus)
    ensures s == Published <==> status == Str("published")
  {
    if status == Str("published") then Published else Draft
  }

  /** What `Exam.create` rejects with a validation or cast error (the route's
      `catch` answers 500): the length limits, the minimum duration and an
      owner id that is not an ObjectId. */
  predicate SchemaRejects(title: string, department: string, duration: real, caller: string) {
    |title| > TITLE_MAX || |department| > DEPARTMENT_MAX || duration < DURATION_MIN || !IsValidObjectId(caller)
  }

  /** Storing an exam whose request passed the route's checks: `Exam.create`
      trims the texts, casts the questions and applies the schema's limits; a
      failed cast or a schema rejection is the route's 500. */
  function StoreExam(store: ExamStore, caller: string, rawTitle: string, rawDepartment: string, duration: real,
                     status: ExamStatus, items: seq<Value>, newId: string, now: nat)
    : (r: Handled<Exam, ExamStore>)
    requires newId !in store
    requires !IsBlank(rawTitle) && !IsBlank(rawDepartment) && duration > 0.0
    requires forall i :: 0 <= i < |items| ==> CheckQuestion(items[i]) == None
    ensures r.response.Error? ==> r == Handled(ServerError(), store)
    ensures r.response.Ok? <==>
      CastQuestions(items).Some? && !SchemaRejects(Trim(rawTitle), Trim(rawDepartment), duration, caller)
    ensures r.response.Ok? ==>
      && r.response.status == CREATED
      && r.store == store[newId := r.response.body]
      && ExamSchemaOk(r.response.body)
      && r.response.body == Exam(Trim(rawTitle), Trim(rawDepartment), duration, status,
                                 CastQuestions(items).value, caller, now, now)
  {
    var title := Trim(rawTitle);
    var department := Trim(rawDepartment);
    var cast := CastQuestions(items);
    if cast.None? || SchemaRejects(title, department, duration, caller) then Handled(ServerError(), store)
    else
      CastQuestionsWellFormed(items);
      NewExamFitsSchema(rawTitle, rawDepartment, duration, status, cast.value, caller, now);
      var exam := Exam(title, department, duration, status, cast.value, caller, now, now);
      Handled(Ok(CREATED, exam), store[newId := exam])
  }

  /** A new exam built from checked fields satisfies the whole schema. */
  lemma NewExamFitsSchema(rawTitle: string, rawDepartment: string, duration: real, status: ExamStatus,
                          questions: seq<Question>, caller: string, now: nat)
    requires !IsBlank(rawTitle) && !IsBlank(rawDepartment) && duration > 0.0
    requires !SchemaRejects(Trim(rawTitle), Trim(rawDepartment), duration, caller)
    requires forall i :: 0 <= i < |questions| ==> QuestionWellFormed(questions[i])
    ensures ExamSchemaOk(Exam(Trim(rawTitle), Trim(rawDepartment), duration, status, questions, caller, now, now))
  {
    TrimEmptyIff(rawTitle);
    TrimEmptyIff(rawDepartment);
  }

  /** `POST /api/exams` by `caller`. On success the new exam is stored under
      the fresh id `newId`, with trimmed title and department, `caller` as its
      owner, and both timestamps at `now`. */
  function Create(store: ExamStore, caller: string, body: Value, number: Value -> NumberValue, newId: string, now: nat)
    : (r: Handled<Exam, ExamStore>)
    requires newId !in store
    ensures r.response.Error? ==> r.store == store
    ensures CreateRequestError(body, number).Some? ==>
      r.response == Error(BAD_REQUEST, CreateRequestError(body, number).value)
    ensures CreateRequestError(body, number).None? ==>
      r == StoreExam(store, caller, Get(body, "examTitle").s, Get(body, "department").s,
                     number(Get(body, "durationMinutes")).value, CreateStatus(Get(body, "status")),
                     CreateQuestions(body).items, newId, now)
    ensures r.response.Ok? ==> r.store == store[newId := r.response.body] && ExamSchemaOk(r.response.body)
  {
    match CreateRequestError(body, number)
    case Some(m) => Handled(Error(BAD_REQUEST, m), store)
    case None =>
      StoreExam(store, caller, Get(body, "examTitle").s, Get(body, "department").s,
                number(Get(body, "durationMinutes")).value, CreateStatus(Get(body, "status")),
                CreateQuestions(body).items, newId, now)
  }

  /** A successful create stores, under the fresh id, an exam that fits the
      schema, with the trimmed texts of the body, the caller as owner, the
      status the body asked for and both timestamps at `now`. */
  lemma CreateStored(store: ExamStore, caller: string, body: Value, number: Value -> NumberValue, newId: string, now: nat)
    requires newId !in store
    requires Create(store, caller, body, number, newId, now).response.Ok?
    ensures
      var r := Create(store, caller, body, number, newId, now);
      && r.response.status == CREATED
      && r.store == store[newId := r.response.body]
      && ExamSchemaOk(r.response.body)
      && r.response.body.examTitle == Trim(Get(body, "examTitle").s)
      && r.response.body.department == Trim(Get(body, "department").s)
      && r.response.body.createdBy == caller
      && (r.response.body.status == Published <==> Get(body, "status") == Str("published"))
      && r.response.body.createdAt == r.response.body.updatedAt == now
  {
    assert CreateRequestError(body, number).None?;
  }

  /** Create succeeds exactly when the request passes the route's checks, the
      trimmed texts and the duration fit the schema, every question casts and
      the caller's id is an ObjectId. */
  predicate CreateAccepted(caller: string, body: Value, number: Value -> NumberValue) {
    var qs := CreateQuestions(body);
    && CreateRequestOk(body, number)
    && |Trim(Get(body, "examTitle").s)| <= TITLE_MAX
    && |Trim(Get(body, "department").s)| <= DEPARTMENT_MAX
    && number(Get(body, "durationMinutes")).value >= DURATION_MIN
    && (forall i :: 0 <= i < |qs.items| ==> CastQuestion(qs.items[i]).Some?)
    && IsValidObjectId(caller)
  }

  lemma CreateSucceedsIff(store: ExamStore, caller: string, body: Value, number: Value -> NumberValue, newId: string, now: nat)
    requires newId !in store
    ensures Create(store, caller, body, number, newId, now).response.Ok? <==> CreateAccepted(caller, body, number)
  {
    CreateRequestErrorIff(body, number);
  }

  /** A duration strictly between 0 and 1 passes the route's positivity check
      but not the schema's minimum: the request fails with 500, not 400. */
  lemma FractionalDurationIsServerError(store: ExamStore, caller: string, body: Value, number: Value -> NumberValue, newId: string, now: nat)
    requires newId !in store
    requires CreateRequestError(body, number) == None
    requires number(Get(body, "durationMinutes")).value < 1.0
    ensures Create(store, caller, body, number, newId, now).response == Error(SERVER_ERROR, "Server error")
  {
  }

  /** A created exam can be read back by its owner, and by nobody else. */
  lemma CreateThenGet(store: ExamStore, caller: string, other: string, body: Value, number: Value -> NumberValue, newId: string, now: nat)
    requires newId !in store && IsValidObjectId(newId)
    requires Create(store, caller, body, number, newId, now).response.Ok?
    requires other != caller
    ensures
      var r := Create(store, caller, body, number, newId, now);
      && GetExam(r.store, caller, newId) == Ok(OK, r.response.body)
      && GetExam(r.store, other, newId).Error?
  {
    CreateStored(store, caller, body, number, newId, now);
  }

  /** `GET /api/exams/:id` by `caller`. */
  function GetExam(store: ExamStore, caller: string, id: string): (r: Response<Exam>)
    ensures !IsValidObjectId(id) ==> r == Error(BAD_REQUEST, INVALID_ID)
    ensures r.Ok? <==> IsValidObjectId(id) && IsValidObjectId(caller) && Owned(store, caller, id)
    ensures r.Ok? ==> r == Ok(OK, store[id])
    ensures IsValidObjectId(id) && IsValidObjectId(caller) && !Owned(store, caller, id) ==>
      r == Error(NOT_FOUND, EXAM_NOT_FOUND)
  {
    if !IsValidObjectId(id) then Error(BAD_REQUEST, INVALID_ID)
    else if !IsValidObjectId(caller) then ServerError()
    else if !Owned(store, caller, id) then Error(NOT_FOUND, EXAM_NOT_FOUND)
    else Ok(OK, store[id])
  }

  /** `DELETE /api/exams/:id` by `caller`: removes that one exam when the
      caller owns it; the body of the success response is `{ ok: true }`. */
  function DeleteExam(store: ExamStore, caller: string, id: string): (r: Handled<bool, ExamStore>)
    ensures !IsValidObjectId(id) ==> r.response == Error(BAD_REQUEST, INVALID_ID)
    ensures r.response.Ok? <==> IsValidObjectId(id) && IsValidObjectId(caller) && Owned(store, caller, id)
    ensures r.response.Ok? ==> r.store.Keys == store.Keys - {id}
    ensures forall k :: k in r.store ==> k in store && r.store[k] == store[k]
    ensures r.response.Error? ==> r.store == store
    ensures IsValidObjectId(id) && IsValidObjectId(caller) && !Owned(store, caller, id) ==>
      r.response == Error(NOT_FOUND, EXAM_NOT_FOUND)
  {
    if !IsValidObjectId(id) then Handled(Error(BAD_REQUEST, INVALID_ID), store)
    else if !IsValidObjectId(caller) then Handled(ServerError(), store)
    else if !Owned(store, caller, id) then Handled(Error(NOT_FOUND, EXAM_NOT_FOUND), store)
    else Handled(Ok(OK, true), store - {id})
  }

  /** After a delete the exam is gone for its owner too. */
  lemma DeleteThenGet(store: ExamStore, caller: string, id: string)
    requires DeleteExam(store, caller, id).response.Ok?
    ensures GetExam(DeleteExam(store, caller, id).store, caller, id) == Error(NOT_FOUND, EXAM_NOT_FOUND)
  {
  }

  /** The fields a `PUT` body sets, already validated, trimmed and cast. */
  datatype Patch = Patch(
    examTitle: Option<string>,
    department: Option<string>,
    durationMinutes: Option<real>,
    status: Option<ExamStatus>,
    questions: Option<seq<Question>>)

  /** A `PUT` body is refused with a message, fails to cast (500), or gives a
      patch. */
  datatype PatchOutcome = Rejected(message: string) | Uncastable | Accepted(patch: Patch)

  /** The checks of `PUT /api/exams/:id` on its body, in the route's order: each
      field is checked only when it is present (not `undefined`). */
  function ParsePatch(body: Value, number: Value -> NumberValue): (r: PatchOutcome)
    ensures r.Accepted? ==> (Get(body, "examTitle") == Undefined <==> r.patch.examTitle == None)
    ensures r.Accepted? ==> (Get(body, "department") == Undefined <==> r.patch.department == None)
    ensures r.Accepted? ==> (Get(body, "durationMinutes") == Undefined <==> r.patch.durationMinutes == None)
    ensures r.Accepted? ==> (Get(body, "status") == Undefined <==> r.patch.status == None)
    ensures r.Accepted? ==> (Get(body, "questions") == Undefined <==> r.patch.questions == None)
  {
    var title := Get(body, "examTitle");
    var department := Get(body, "department");
    var duration := Get(body, "durationMinutes");
    var status := Get(body, "status");
    var questions := Get(body, "questions");
    if title != Undefined && !IsNonEmptyString(title) then Rejected("examTitle cannot be empty")
    else if department != Undefined && !IsNonEmptyString(department) then Rejected("department cannot be empty")
    else if duration != Undefined && !number(duration).IsPositive() then
      Rejected("durationMinutes must be a positive number")
    else if status != Undefined && status != Str("draft") && status != Str("published") then
      Rejected("status must be draft or published")
    else if questions != Undefined && ValidateQuestions(questions).Some? then
      Rejected(ValidateQuestions(questions).value.Message())
    else if questions != Undefined && CastQuestions(questions.items).None? then Uncastable
    else
      Accepted(Patch(
        if title == Undefined then None else Some(Trim(title.s)),
        if department == Undefined then None else Some(Trim(department.s)),
        if duration == Undefined then None else Some(number(duration).value),
        if status == Undefined then None else Some(if status == Str("draft") then Draft else Published),
        if questions == Undefined then None else Some(CastQuestions(questions.items).value)))
  }

  /** A refused update names the first present field that fails, in the
      route's order: title, department, duration, status, questions. */
  lemma ParsePatchRefusals(body: Value, number: Value -> NumberValue)
    ensures
      var title, department := Get(body, "examTitle"), Get(body, "department");
      var duration, status := Get(body, "durationMinutes"), Get(body, "status");
      var questions := Get(body, "questions");
      var titleOk := title == Undefined || IsNonEmptyString(title);
      var departmentOk := department == Undefined || IsNonEmptyString(department);
      var durationOk := duration == Undefined || number(duration).IsPositive();
      var statusOk := status == Undefined || status == Str("draft") || status == Str("published");
      && (!titleOk ==> ParsePatch(body, number) == Rejected("examTitle cannot be empty"))
      && (titleOk && !departmentOk ==> ParsePatch(body, number) == Rejected("department cannot be empty"))
      && (titleOk && departmentOk && !durationOk ==>
            ParsePatch(body, number) == Rejected("durationMinutes must be a positive number"))
      && (titleOk && departmentOk && durationOk && !statusOk ==>
            ParsePatch(body, number) == Rejected("status must be draft or published"))
      && (titleOk && departmentOk && durationOk && statusOk && questions != Undefined &&
          ValidateQuestions(questions).Some? ==>
            ParsePatch(body, number) == Rejected(ValidateQuestions(questions).value.Message()))
      && (titleOk && departmentOk && durationOk && statusOk && questions != Undefined &&
          ValidateQuestions(questions).None? && CastQuestions(questions.items).None? ==>
            ParsePatch(body, number) == Uncastable)
  {
  }

  /** A body whose every present field is acceptable, stated field by field. */
  predicate PatchAcceptable(body: Value, number: Value -> NumberValue) {
    var questions := Get(body, "questions");
    && (Get(body, "examTitle") == Undefined || IsNonEmptyString(Get(body, "examTitle")))
    && (Get(body, "department") == Undefined || IsNonEmptyString(Get(body, "department")))
    && (Get(body, "durationMinutes") == Undefined || number(Get(body, "durationMinutes")).IsPositive())
    && (Get(body, "status") == Undefined || Get(body, "status") in {Str("draft"), Str("published")})
    && (questions == Undefined ||
        (questions.Arr? && forall i :: 0 <= i < |questions.items| ==>
           IsAcceptableQuestion(questions.items[i]) && CastQuestion(questions.items[i]).Some?))
  }

  lemma ParsePatchAcceptedIff(body: Value, number: Value -> NumberValue)
    ensures ParsePatch(body, number).Accepted? <==> PatchAcceptable(body, number)
  {
    ValidateQuestionsIff(Get(body, "questions"));
  }

  /** A named duration is set to its positive number, and named questions to
      their cast. */
  lemma ParsePatchValues(body: Value, number: Value -> NumberValue)
    requires ParsePatch(body, number).Accepted?
    ensures Get(body, "durationMinutes") != Undefined ==>
      && number(Get(body, "durationMinutes")).IsPositive()
      && ParsePatch(body, number).patch.durationMinutes == Some(number(Get(body, "durationMinutes")).value)
    ensures Get(body, "questions") != Undefined ==>
      && Get(body, "questions").Arr?
      && CastQuestions(Get(body, "questions").items).Some?
      && ParsePatch(body, number).patch.questions == Some(CastQuestions(Get(body, "questions").items).value)
  {
  }

  /** Every field a patch sets satisfies what the exam invariant asks of it. */
  predicate PatchWellFormed(p: Patch) {
    && (p.examTitle.Some? ==> IsFilledText(p.examTitle.value))
    && (p.department.Some? ==> IsFilledText(p.department.value))
    && (p.durationMinutes.Some? ==> p.durationMinutes.value > 0.0)
    && (p.questions.Some? ==> forall i :: 0 <= i < |p.questions.value| ==> QuestionWellFormed(p.questions.value[i]))
  }

  /** A patched field keeps the exam invariant. */
  lemma ParsePatchWellFormed(body: Value, number: Value -> NumberValue)
    requires ParsePatch(body, number).Accepted?
    ensures PatchWellFormed(ParsePatch(body, number).patch)
  {
    var p := ParsePatch(body, number).patch;
    var questions := Get(body, "questions");
    if Get(body, "examTitle") != Undefined {
      TrimEmptyIff(Get(body, "examTitle").s);
      assert p.examTitle == Some(Trim(Get(body, "examTitle").s));
    }
    if Get(body, "department") != Undefined {
      TrimEmptyIff(Get(body, "department").s);
      assert p.department == Some(Trim(Get(body, "department").s));
    }
    if questions != Undefined {
      CastQuestionsWellFormed(questions.items);
    }
  }

  /** `$set` of the patch; the schema's timestamps stamp `updatedAt`. */
  function Apply(e: Exam, p: Patch, now: nat): Exam {
    e.(examTitle := p.examTitle.GetOr(e.examTitle),
       department := p.department.GetOr(e.department),
       durationMinutes := p.durationMinutes.GetOr(e.durationMinutes),
       status := p.status.GetOr(e.status),
       questions := p.questions.GetOr(e.questions),
       updatedAt := now)
  }

  /** Applying a well-formed patch keeps the exam invariant. */
  lemma ApplyKeepsInvariant(e: Exam, p: Patch, now: nat)
    requires ExamInvariant(e) && PatchWellFormed(p)
    ensures ExamInvariant(Apply(e, p, now))
  {
  }

  /** Setting a checked patch on the caller's exam: the caller must own it. */
  function PatchExam(store: ExamStore, caller: string, id: string, p: Patch, now: nat): (r: Handled<Exam, ExamStore>)
    ensures r.response.Ok? <==> IsValidObjectId(caller) && Owned(store, caller, id)
    ensures IsValidObjectId(caller) && !Owned(store, caller, id) ==> r.response == Error(NOT_FOUND, EXAM_NOT_FOUND)
    ensures r.response.Error? ==> r.store == store
    ensures r.response.Ok? ==>
      && r.response == Ok(OK, Apply(store[id], p, now))
      && r.store == store[id := r.response.body]
      && (ExamInvariant(store[id]) && PatchWellFormed(p) ==> ExamInvariant(r.response.body))
  {
    if !IsValidObjectId(caller) then Handled(ServerError(), store)
    else if !Owned(store, caller, id) then Handled(Error(NOT_FOUND, EXAM_NOT_FOUND), store)
    else
      var e := Apply(store[id], p, now);
      Handled(Ok(OK, e), store[id := e])
  }

  /** `PUT /api/exams/:id` by `caller`: validates the present fields, then sets
      exactly those on the caller's exam. The update runs no schema
      validators, so the length limits and the minimum duration of
      `Exam.create` are not enforced here. */
  function UpdateExam(store: ExamStore, caller: string, id: string, body: Value, number: Value -> NumberValue, now: nat)
    : (r: Handled<Exam, ExamStore>)
    ensures !IsValidObjectId(id) ==> r.response == Error(BAD_REQUEST, INVALID_ID)
    ensures IsValidObjectId(id) && ParsePatch(body, number).Rejected? ==>
      r.response == Error(BAD_REQUEST, ParsePatch(body, number).message)
    ensures IsValidObjectId(id) && ParsePatch(body, number).Uncastable? ==> r.response == ServerError()
    ensures IsValidObjectId(id) && ParsePatch(body, number).Accepted? ==>
      r == PatchExam(store, caller, id, ParsePatch(body, number).patch, now)
    ensures r.response.Error? ==> r.store == store
    ensures r.response.Ok? ==>
      && IsValidObjectId(id)
      && ParsePatch(body, number).Accepted?
      && r == PatchExam(store, caller, id, ParsePatch(body, number).patch, now)
  {
    if !IsValidObjectId(id) then Handled(Error(BAD_REQUEST, INVALID_ID), store)
    else
      match ParsePatch(body, number)
      case Rejected(m) => Handled(Error(BAD_REQUEST, m), store)
      case Uncastable => Handled(ServerError(), store)
      case Accepted(p) => PatchExam(store, caller, id, p, now)
  }

  /** A successful update sets exactly the fields the body names, trimmed or
      cast as the schema does, keeps the owner and the creation time, stamps
      `updatedAt`, and keeps the exam invariant. */
  lemma UpdateApplied(store: ExamStore, caller: string, id: string, body: Value, number: Value -> NumberValue, now: nat)
    requires UpdateExam(store, caller, id, body, number, now).response.Ok?
    ensures
      var r := UpdateExam(store, caller, id, body, number, now);
      var e := r.response.body;
      && Owned(store, caller, id)
      && r.store == store[id := e]
      && e.createdBy == store[id].createdBy
      && e.createdAt == store[id].createdAt
      && e.updatedAt == now
      && (Get(body, "examTitle") == Undefined ==> e.examTitle == store[id].examTitle)
      && (Get(body, "examTitle") != Undefined ==>
            IsNonEmptyString(Get(body, "examTitle")) && e.examTitle == Trim(Get(body, "examTitle").s))
      && (Get(body, "department") == Undefined ==> e.department == store[id].department)
      && (Get(body, "department") != Undefined ==>
            IsNonEmptyString(Get(body, "department")) && e.department == Trim(Get(body, "department").s))
      && (Get(body, "durationMinutes") == Undefined ==> e.durationMinutes == store[id].durationMinutes)
      && (Get(body, "durationMinutes") != Undefined ==>
            number(Get(body, "durationMinutes")).IsPositive() &&
            e.durationMinutes == number(Get(body, "durationMinutes")).value)
      && (Get(body, "status") == Undefined ==> e.status == store[id].status)
      && (Get(body, "status") != Undefined ==> Get(body, "status") == Str(e.status.Name()))
      && (Get(body, "questions") == Undefined ==> e.questions == store[id].questions)
      && (Get(body, "questions") != Undefined ==>
            && Get(body, "questions").Arr?
            && CastQuestions(Get(body, "questions").items).Some?
            && e.questions == CastQuestions(Get(body, "questions").items).value)
      && (ExamInvariant(store[id]) ==> ExamInvariant(e))
  {
    var p := ParsePatch(body, number).patch;
    ParsePatchWellFormed(body, number);
    ParsePatchValues(body, number);
    assert UpdateExam(store, caller, id, body, number, now) == PatchExam(store, caller, id, p, now);
  }

  /** Update succeeds exactly for a valid id, an acceptable body and an exam
      the caller owns. */
  lemma UpdateSucceedsIff(store: ExamStore, caller: string, id: string, body: Value, number: Value -> NumberValue, now: nat)
    ensures UpdateExam(store, caller, id, body, number, now).response.Ok? <==>
      IsValidObjectId(id) && PatchAcceptable(body, number) && IsValidObjectId(caller) && Owned(store, caller, id)
  {
    ParsePatchAcceptedIff(body, number);
  }

  /** A body with none of the fields changes nothing but `updatedAt`. */
  lemma UpdateEmptyBody(store: ExamStore, caller: string, id: string, number: Value -> NumberValue, now: nat)
    requires IsValidObjectId(id) && IsValidObjectId(caller) && Owned(store, caller, id)
    ensures UpdateExam(store, caller, id, Obj(map[]), number, now).response == Ok(OK, store[id].(updatedAt := now))
  {
  }

  /** Exams of other ids are untouched by every route: by create, by update
      and by delete. */
  lemma CreateKeepsOthers(store: ExamStore, caller: string, body: Value, number: Value -> NumberValue,
                          other: string, newId: string, now: nat)
    requires other in store && other != newId && newId !in store
    ensures other in Create(store, caller, body, number, newId, now).store
    ensures Create(store, caller, body, number, newId, now).store[other] == store[other]
  {
  }

  lemma UpdateKeepsOthers(store: ExamStore, caller: string, id: string, other: string, body: Value,
                          number: Value -> NumberValue, now: nat)
    requires other in store && other != id
    ensures other in UpdateExam(store, caller, id, body, number, now).store
    ensures UpdateExam(store, caller, id, body, number, now).store[other] == store[other]
  {
  }

  lemma DeleteKeepsOthers(store: ExamStore, caller: string, id: string, other: string)
    requires other in store && other != id
    ensures other in DeleteExam(store, caller, id).store
    ensures DeleteExam(store, caller, id).store[other] == store[other]
  {
    var r := DeleteExam(store, caller, id);
    if r.response.Ok? {
      assert other in r.store.Keys;
    }
  }

  /** Create coerces an unknown status to draft, while update refuses it. */
  lemma UnknownStatusCoercedOrRefused(store: ExamStore, caller: string, id: string, body: Value,
                                      number: Value -> NumberValue, newId: string, now: nat)
    requires Get(body, "status") == Str("archived")
    requires IsValidObjectId(id) && newId !in store
    requires IsNonEmptyString(Get(body, "examTitle")) && IsNonEmptyString(Get(body, "department"))
    requires number(Get(body, "durationMinutes")).IsPositive()
    ensures Create(store, caller, body, number, newId, now).response.Ok? ==>
      Create(store, caller, body, number, newId, now).response.body.status == Draft
    ensures UpdateExam(store, caller, id, body, number, now).response ==
      Error(BAD_REQUEST, "status must be draft or published")
  {
    assert Str("archived") != Str("published");
    if Create(store, caller, body, number, newId, now).response.Ok? {
      CreateStored(store, caller, body, number, newId, now);
    }
    UnknownStatusRejected(body, number);
  }

  /** Any status other than exactly "draft" or "published" is refused by
      update, once the fields checked before it are absent or acceptable. */
  lemma UnknownStatusRejected(body: Value, number: Value -> NumberValue)
    requires Get(body, "status") != Undefined
    requires Get(body, "status") != Str("draft") && Get(body, "status") != Str("published")
    requires Get(body, "examTitle") == Undefined || IsNonEmptyString(Get(body, "examTitle"))
    requires Get(body, "department") == Undefined || IsNonEmptyString(Get(body, "department"))
    requires Get(body, "durationMinutes") == Undefined || number(Get(body, "durationMinutes")).IsPositive()
    ensures ParsePatch(body, number) == Rejected("status must be draft or published")
  {
  }

  /** Update does not enforce the schema minimum: a half-minute duration is
      stored, where create would have answered 500. */
  lemma UpdateAcceptsShortDuration(store: ExamStore, caller: string, id: string, number: Value -> NumberValue, now: nat)
    requires IsValidObjectId(id) && IsValidObjectId(caller) && Owned(store, caller, id)
    requires number(Num(0.5)) == Finite(0.5)
    ensures
      var r := UpdateExam(store, caller, id, Obj(map["durationMinutes" := Num(0.5)]), number, now);
      r.response.Ok? && r.response.body.durationMinutes == 0.5
  {
    var body := Obj(map["durationMinutes" := Num(0.5)]);
    assert Get(body, "durationMinutes") == Num(0.5);
    assert Get(body, "examTitle") == Undefined;
    assert Get(body, "department") == Undefined;
    assert Get(body, "status") == Undefined;
    assert Get(body, "questions") == Undefined;
  }

  /** Every route keeps the store invariant. */
  lemma CreatePreservesInvariant(store: ExamStore, caller: string, body: Value,
                                 number: Value -> NumberValue, newId: string, now: nat)
    requires StoreInvariant(store) && newId !in store
    ensures StoreInvariant(Create(store, caller, body, number, newId, now).store)
  {
    var r := Create(store, caller, body, number, newId, now);
    if r.response.Ok? {
      var e := r.response.body;
      assert ExamInvariant(e);
      forall id | id in r.store
        ensures ExamInvariant(r.store[id])
      {
        if id != newId {
          assert r.store[id] == store[id];
        }
      }
    }
  }

  lemma UpdatePreservesInvariant(store: ExamStore, caller: string, id: string, body: Value,
                                 number: Value -> NumberValue, now: nat)
    requires StoreInvariant(store)
    ensures StoreInvariant(UpdateExam(store, caller, id, body, number, now).store)
  {
    var r := UpdateExam(store, caller, id, body, number, now);
    if r.response.Ok? {
      ParsePatchWellFormed(body, number);
      var q := PatchExam(store, caller, id, ParsePatch(body, number).patch, now);
      assert r == q;
      assert ExamInvariant(store[id]);
      assert ExamInvariant(q.response.body);
    }
  }

  lemma DeletePreservesInvariant(store: ExamStore, caller: string, id: string)
    requires StoreInvariant(store)
    ensures StoreInvariant(DeleteExam(store, caller, id).store)
  {
  }

  /** One row of a listing: the fields `GET /api/exams` selects. */
  datatype ExamSummary = ExamSummary(
    id: string,
    examTitle: string,
    department: string,
    durationMinutes: real,
    status: ExamStatus,
    createdAt: nat,
    updatedAt: nat)

  function Summarize(id: string, e: Exam): ExamSummary {
    ExamSummary(id, e.examTitle, e.department, e.durationMinutes, e.status, e.createdAt, e.updatedAt)
  }

  function UpdatedKey(s: ExamSummary): int {
    s.updatedAt
  }

  /** The department filter: the trimmed query value when it is a non-empty
      string, otherwise none. */
  function DepartmentFilter(query: Value): Option<string> {
    var d := Get(query, "department");
    if IsNonEmptyString(d) then Some(Trim(d.s)) else None
  }

  /** The status filter: only exactly "draft" or "published" filter. */
  function StatusFilter(query: Value): (r: Option<ExamStatus>)
    ensures r.Some? ==> Get(query, "status") == Str(r.value.Name())
    ensures r.None? ==> Get(query, "status") != Str("draft") && Get(query, "status") != Str("published")
  {
    var s := Get(query, "status");
    if s == Str("draft") then Some(Draft)
    else if s == Str("published") then Some(Published)
    else None
  }

  /** The exams a listing by `caller` with `query` returns. */
  predicate Listed(e: Exam, caller: string, query: Value) {
    && e.createdBy == caller
    && (DepartmentFilter(query).Some? ==> e.department == DepartmentFilter(query).value)
    && (StatusFilter(query).Some? ==> e.status == StatusFilter(query).value)
  }

  /** The rows of the exams a listing returns. */
  function ListedRows(store: ExamStore, caller: string, query: Value): set<ExamSummary> {
    set id | id in store && Listed(store[id], caller, query) :: Summarize(id, store[id])
  }

  /** A row is listed exactly when it summarizes a listed exam under its own id. */
  lemma ListedRowsMembership(store: ExamStore, caller: string, query: Value)
    ensures forall x :: x in ListedRows(store, caller, query) ==>
      x.id in store && Listed(store[x.id], caller, query) && x == Summarize(x.id, store[x.id])
    ensures forall id :: id in store && Listed(store[id], caller, query) ==>
      Summarize(id, store[id]) in ListedRows(store, caller, query)
  {
  }

  /** `GET /api/exams` by `caller`: the caller's exams that pass the filters,
      each once, newest update first. */
  method ListExams(store: ExamStore, caller: string, query: Value) returns (r: Response<seq<ExamSummary>>)
    ensures !IsValidObjectId(caller) ==> r == ServerError()
    ensures IsValidObjectId(caller) ==> r.Ok? && r.status == OK
    ensures r.Ok? ==> SortedDesc(r.body, UpdatedKey)
    ensures r.Ok? ==> forall k :: 0 <= k < |r.body| ==>
      && r.body[k].id in store
      && Listed(store[r.body[k].id], caller, query)
      && r.body[k] == Summarize(r.body[k].id, store[r.body[k].id])
    ensures r.Ok? ==> forall id :: id in store && Listed(store[id], caller, query) ==>
      Summarize(id, store[id]) in r.body
    ensures r.Ok? ==> forall i, j :: 0 <= i < j < |r.body| ==> r.body[i] != r.body[j]
  {
    if !IsValidObjectId(caller) {
      return ServerError();
    }
    var rows := ListedRows(store, caller, query);
    var listed := SetToSeq(rows);
    var sorted := SortDesc(listed, UpdatedKey);
    ListedOnceDistinct(sorted, rows);
    ListedRowsMembership(store, caller, query);
    assert forall k :: 0 <= k < |sorted| ==> sorted[k] in rows;
    return Ok(OK, sorted);
  }

  /** A status filter other than "draft" or "published" lists what no status
      filter lists. */
  lemma UnknownStatusFilterIgnored(e: Exam, caller: string, query: Value)
    requires Get(query, "status") != Str("draft") && Get(query, "status") != Str("published")
    ensures Listed(e, caller, query) <==>
      (e.createdBy == caller && (DepartmentFilter(query).Some? ==> e.department == DepartmentFilter(query).value))
  {
  }
}
