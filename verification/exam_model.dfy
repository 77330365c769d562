/** The stored exam document: the `Exam` schema with its embedded question
    schema, and how an accepted request question is cast into it. */
module ExamSchema {
  import opened Wrappers
  import opened JsText
  import opened Json
  import opened ObjectIds
  import opened QuestionValidator

  const TITLE_MAX: nat := 150
  const DEPARTMENT_MAX: nat := 80
  const DURATION_MIN: real := 1.0

  /** The `status` enum; a stored exam is one or the other, `draft` by default. */
  datatype ExamStatus = Draft | Published {
    function Name(): string {
      match this
      case Draft => "draft"
      case Published => "published"
    }
  }

  /** A stored question: the `type` enum decides which of the optional fields
      the document carries. */
  datatype Question =
    | MultipleChoice(prompt: string, choices: seq<string>, correctIndex: int)
    | TrueFalse(prompt: string, correctBoolean: bool)
    | Narrative(prompt: string, rubric: string)
  {
    /** The value of the `type` field. */
    function KindName(): string {
      match this
      case MultipleChoice(_, _, _) => MULTIPLE_CHOICE
      case TrueFalse(_, _) => TRUE_FALSE
      case Narrative(_, _) => NARRATIVE
    }
  }

  /** A stored exam. `createdBy` is the owner's id; the two timestamps are the
      schema's `timestamps` option, as abstract clock readings. */
  datatype Exam = Exam(
    examTitle: string,
    department: string,
    durationMinutes: real,
    status: ExamStatus,
    questions: seq<Question>,
    createdBy: string,
    createdAt: nat,
    updatedAt: nat)

  /** How many strings are non-empty. */
  function NonEmptyCount(xs: seq<string>): (n: nat)
    ensures n <= |xs|
    decreases |xs|
  {
    if xs == [] then 0 else (if xs[0] != [] then 1 else 0) + NonEmptyCount(xs[1..])
  }

  /** A non-empty, trimmed text: what a required `trim: true` string field holds. */
  predicate IsFilledText(s: string) {
    s != [] && IsTrimmed(s)
  }

  /** What every stored question satisfies once the route has validated it and
      the schema has trimmed it. */
  predicate QuestionWellFormed(q: Question) {
    && IsFilledText(q.prompt)
    && match q
       case MultipleChoice(_, choices, ci) =>
         && (forall i :: 0 <= i < |choices| ==> IsTrimmed(choices[i]))
         && NonEmptyCount(choices) >= 2
         && 0 <= ci < |choices|
         && choices[ci] != []
       case TrueFalse(_, _) => true
       case Narrative(_, rubric) => IsFilledText(rubric)
  }

  /** What every stored exam satisfies, whichever route wrote it last. */
  predicate ExamInvariant(e: Exam) {
    && IsFilledText(e.examTitle)
    && IsFilledText(e.department)
    && e.durationMinutes > 0.0
    && (forall i :: 0 <= i < |e.questions| ==> QuestionWellFormed(e.questions[i]))
    && IsValidObjectId(e.createdBy)
  }

  /** The full schema of `Exam.create`: the invariant plus the length limits and
      the minimum duration, which only document creation enforces. */
  predicate ExamSchemaOk(e: Exam) {
    && ExamInvariant(e)
    && |e.examTitle| <= TITLE_MAX
    && |e.department| <= DEPARTMENT_MAX
    && e.durationMinutes >= DURATION_MIN
  }

  predicate AllStrings(cs: seq<Value>) {
    forall i :: 0 <= i < |cs| ==> cs[i].Str?
  }

  /** The schema's `[{ type: String, trim: true }]` applied to string choices. */
  function TrimAll(cs: seq<Value>): (r: seq<string>)
    requires AllStrings(cs)
    ensures |r| == |cs|
    ensures forall i :: 0 <= i < |cs| ==> r[i] == Trim(cs[i].s)
    ensures forall i :: 0 <= i < |r| ==> IsTrimmed(r[i])
  {
    seq(|cs|, i requires 0 <= i < |cs| => Trim(cs[i].s))
  }

  /** A present value of a `String` path casts when it is a string; `null`
      and an absent value are always accepted. */
  predicate CastsAsText(v: Value) {
    v == Undefined || v == Null || v.Str?
  }

  predicate CastsAsNumber(v: Value) {
    v == Undefined || v == Null || v.Num?
  }

  predicate CastsAsBoolean(v: Value) {
    v == Undefined || v == Null || v.Bool?
  }

  predicate CastsAsTextList(v: Value) {
    v == Undefined || v == Null || (v.Arr? && AllStrings(v.items))
  }

  /** The question sub-schema declares `choices`, `correctIndex`,
      `correctBoolean` and `rubric` for every question, so each of them is
      cast whenever it is present, whatever the question's type. */
  predicate FieldsCast(q: Value) {
    && CastsAsTextList(Get(q, "choices"))
    && CastsAsNumber(Get(q, "correctIndex"))
    && CastsAsBoolean(Get(q, "correctBoolean"))
    && CastsAsText(Get(q, "rubric"))
  }

  /** Casting one request question to the question schema: every present
      field must cast, strings are trimmed, and the fields of its kind are
      kept. For a question the route accepted, the cast fails exactly when
      some field of the sub-schema does not cast (see `CastAcceptedQuestion`). */
  function CastQuestion(q: Value): (r: Option<Question>)
    ensures r.Some? ==> Get(q, "prompt").Str? && r.value.prompt == Trim(Get(q, "prompt").s)
    ensures r.Some? ==> Get(q, "type") == Str(r.value.KindName())
    ensures r.Some? ==> FieldsCast(q)
  {
    var t := Get(q, "type");
    var p := Get(q, "prompt");
    if !p.Str? || !FieldsCast(q) then None
    else if t == Str(MULTIPLE_CHOICE) then
      var cs := Get(q, "choices");
      var ci := Get(q, "correctIndex");
      if cs.Arr? && AllStrings(cs.items) && ci.Num? then Some(MultipleChoice(Trim(p.s), TrimAll(cs.items), ci.n.Floor))
      else None
    else if t == Str(TRUE_FALSE) then
      var b := Get(q, "correctBoolean");
      if b.Bool? then Some(TrueFalse(Trim(p.s), b.b)) else None
    else if t == Str(NARRATIVE) then
      var rubric := Get(q, "rubric");
      if rubric.Str? then Some(Narrative(Trim(p.s), Trim(rubric.s))) else None
    else None
  }

  /** Casting a question list: every question is cast, or the whole list
      fails. */
  function CastQuestions(qs: seq<Value>): (r: Option<seq<Question>>)
    ensures r.Some? <==> forall i :: 0 <= i < |qs| ==> CastQuestion(qs[i]).Some?
    ensures r.Some? ==> |r.value| == |qs| && forall i :: 0 <= i < |qs| ==> CastQuestion(qs[i]) == Some(r.value[i])
  {
    MapAll(qs, CastQuestion)
  }

  /** For a question the route accepted, the cast fails exactly when a field
      of the sub-schema does not cast, the fields of the other kinds
      included. */
  lemma CastAcceptedQuestion(q: Value)
    requires CheckQuestion(q) == None
    ensures CastQuestion(q) == None <==> !FieldsCast(q)
  {
    CheckQuestionIff(q);
    KindNamesDistinct();
  }

  /** A true/false question that the route accepts but that carries a
      `correctIndex` which is not a number fails the cast, so `Exam.create`
      rejects it. */
  lemma ForeignFieldFailsCast(q: Value)
    requires IsObjectLike(q) && Get(q, "type") == Str(TRUE_FALSE)
    requires IsNonEmptyString(Get(q, "prompt")) && Get(q, "correctBoolean").Bool?
    requires Get(q, "correctIndex").Str?
    ensures CheckQuestion(q) == None
    ensures CastQuestion(q) == None
  {
    TrueFalseNeedsBoolean(q);
  }

  /** Filled choices stay filled after trimming, and only those. */
  lemma {:induction false} FilledCountTrimmed(cs: seq<Value>)
    requires AllStrings(cs)
    ensures NonEmptyCount(TrimAll(cs)) == FilledCount(cs)
    decreases |cs|
  {
    if cs != [] {
      var t := TrimAll(cs);
      assert AllStrings(cs[1..]) by {
        assert forall i :: 0 <= i < |cs| - 1 ==> cs[1..][i] == cs[i + 1];
      }
      var rest := TrimAll(cs[1..]);
      assert t[1..] == rest;
      FilledCountTrimmed(cs[1..]);
      assert t[0] == [] <==> !IsNonEmptyString(cs[0]) by {
        TrimEmptyIff(cs[0].s);
      }
      assert NonEmptyCount(t) == (if t[0] != [] then 1 else 0) + NonEmptyCount(rest);
    }
  }

  lemma CastMultipleChoiceWellFormed(q: Value)
    requires IsAcceptableQuestion(q) && Get(q, "type") == Str(MULTIPLE_CHOICE)
    requires CastQuestion(q).Some?
    ensures QuestionWellFormed(CastQuestion(q).value)
  {
    assert MultipleChoiceRules(q) && IsNonEmptyString(Get(q, "prompt")) by {
      KindNamesDistinct();
    }
    var prompt := Get(q, "prompt").s;
    var cs := Get(q, "choices").items;
    var ci := Get(q, "correctIndex").n.Floor;
    assert CastQuestion(q).value == MultipleChoice(Trim(prompt), TrimAll(cs), ci);
    TrimmedChoicesWellFormed(prompt, cs, ci);
  }

  /** The trimmed form of a prompt and choices that pass the route's
      multiple-choice rules is well formed. */
  lemma TrimmedChoicesWellFormed(prompt: string, cs: seq<Value>, ci: int)
    requires !IsBlank(prompt) && AllStrings(cs)
    requires FilledCount(cs) >= 2 && 0 <= ci < |cs| && IsNonEmptyString(cs[ci])
    ensures QuestionWellFormed(MultipleChoice(Trim(prompt), TrimAll(cs), ci))
  {
    var choices := TrimAll(cs);
    TrimOfNonBlank(prompt);
    TrimOfNonBlank(cs[ci].s);
    FilledCountTrimmed(cs);
  }

  /** A question the route accepted and the schema cast is well formed. */
  lemma CastQuestionWellFormed(q: Value)
    requires CheckQuestion(q) == None && CastQuestion(q).Some?
    ensures QuestionWellFormed(CastQuestion(q).value)
  {
    CheckQuestionIff(q);
    KindNamesDistinct();
    TrimEmptyIff(Get(q, "prompt").s);
    var t := Get(q, "type");
    if t == Str(MULTIPLE_CHOICE) {
      CastMultipleChoiceWellFormed(q);
    } else if t == Str(NARRATIVE) {
      TrimEmptyIff(Get(q, "rubric").s);
    }
  }

  /** Every question of a cast list is well formed. */
  lemma CastQuestionsWellFormed(qs: seq<Value>)
    requires forall i :: 0 <= i < |qs| ==> CheckQuestion(qs[i]) == None
    requires CastQuestions(qs).Some?
    ensures forall i :: 0 <= i < |qs| ==> QuestionWellFormed(CastQuestions(qs).value[i])
  {
    forall i | 0 <= i < |qs| {
      CastQuestionWellFormed(qs[i]);
    }
  }
}
