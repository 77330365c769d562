/** `validateQuestions` of the exam routes: a first-failure check of an untyped
    question list, reporting the offending question by its 1-based position. */
module QuestionValidator {
  import opened Wrappers
  import opened JsText
  import opened Json

  const MULTIPLE_CHOICE := "multiple_choice"
  const TRUE_FALSE := "true_false"
  const NARRATIVE := "narrative"

  /** What is wrong with one question, one case per message of the route. */
  datatype Problem =
    | Invalid
    | TypeRequired
    | PromptRequired
    | ChoicesNotArray
    | TooFewChoices
    | CorrectIndexNotNumber
    | CorrectIndexOutOfRange
    | CorrectChoiceEmpty
    | CorrectBooleanNotBoolean
    | RubricRequired
    | UnsupportedType

  datatype ValidationError = NotAnArray | AtQuestion(position: nat, problem: Problem) {

    /** The message the route sends with its 400 response. */
    function Message(): string {
      match this
      case NotAnArray => "questions must be an array"
      case AtQuestion(n, p) =>
        var head := "question " + NatToString(n);
        match p
        case Invalid => head + " is invalid"
        case TypeRequired => head + ": type is required"
        case PromptRequired => head + ": prompt is required"
        case ChoicesNotArray => head + ": choices must be an array"
        case TooFewChoices => head + ": at least 2 non-empty choices required"
        case CorrectIndexNotNumber => head + ": correctIndex must be a number"
        case CorrectIndexOutOfRange => head + ": correctIndex out of range"
        case CorrectChoiceEmpty => head + ": correct choice cannot be empty"
        case CorrectBooleanNotBoolean => head + ": correctBoolean must be true/false"
        case RubricRequired => head + ": rubric is required"
        case UnsupportedType => head + ": unsupported type"
    }
  }

  predicate IsKnownType(t: Value) {
    t == Str(MULTIPLE_CHOICE) || t == Str(TRUE_FALSE) || t == Str(NARRATIVE)
  }

  /** How many entries pass `isNonEmptyString` (the `filled` list). */
  function FilledCount(choices: seq<Value>): (n: nat)
    ensures n <= |choices|
    decreases |choices|
  {
    if choices == [] then 0
    else (if IsNonEmptyString(choices[0]) then 1 else 0) + FilledCount(choices[1..])
  }

  /** The checks of one multiple-choice question, after its type and prompt. */
  function CheckMultipleChoice(q: Value): Option<Problem> {
    var choices := Get(q, "choices");
    var ci := Get(q, "correctIndex");
    if !choices.Arr? then Some(ChoicesNotArray)
    else if FilledCount(choices.items) < 2 then Some(TooFewChoices)
    else if !ci.Num? then Some(CorrectIndexNotNumber)
    else if ci.n < 0.0 || ci.n >= |choices.items| as real then Some(CorrectIndexOutOfRange)
    else if !IsNonEmptyString(Index(choices, ci.n)) then Some(CorrectChoiceEmpty)
    else None
  }

  /** The checks of one question, in the order the route runs them: shape,
      type, prompt, the rules of its kind, and last an unknown kind. */
  function CheckQuestion(q: Value): Option<Problem> {
    var t := Get(q, "type");
    if !IsObjectLike(q) then Some(Invalid)
    else if !IsNonEmptyString(t) then Some(TypeRequired)
    else if !IsNonEmptyString(Get(q, "prompt")) then Some(PromptRequired)
    else if t == Str(MULTIPLE_CHOICE) && CheckMultipleChoice(q).Some? then CheckMultipleChoice(q)
    else if t == Str(TRUE_FALSE) && !Get(q, "correctBoolean").Bool? then Some(CorrectBooleanNotBoolean)
    else if t == Str(NARRATIVE) && !IsNonEmptyString(Get(q, "rubric")) then Some(RubricRequired)
    else if !IsKnownType(t) then Some(UnsupportedType)
    else None
  }

  /** The first position at or after `i` whose element `check` rejects, with
      what it reported; `None` when `check` accepts them all. */
  function FirstFailure<P>(qs: seq<Value>, i: nat, check: Value -> Option<P>): (r: Option<(nat, P)>)
    requires i <= |qs|
    ensures r == None <==> forall j :: i <= j < |qs| ==> check(qs[j]) == None
    ensures r.Some? ==>
      && i <= r.value.0 < |qs|
      && check(qs[r.value.0]) == Some(r.value.1)
      && forall j :: i <= j < r.value.0 ==> check(qs[j]) == None
    decreases |qs| - i
  {
    if i == |qs| then None
    else
      match check(qs[i])
      case Some(p) => Some((i, p))
      case None => FirstFailure(qs, i + 1, check)
  }

  /** `validateQuestions(questions)`: `None` (the source's `null`) exactly when
      `questions` is an array all of whose elements pass; otherwise the first
      failing element, numbered from 1, with its problem. */
  function ValidateQuestions(questions: Value): (r: Option<ValidationError>)
    ensures r == None <==>
      questions.Arr? && forall j :: 0 <= j < |questions.items| ==> CheckQuestion(questions.items[j]) == None
    ensures !questions.Arr? ==> r == Some(NotAnArray)
    ensures questions.Arr? && r.Some? ==>
      && r.value.AtQuestion?
      && 1 <= r.value.position <= |questions.items|
      && CheckQuestion(questions.items[r.value.position - 1]) == Some(r.value.problem)
      && forall j :: 0 <= j < r.value.position - 1 ==> CheckQuestion(questions.items[j]) == None
  {
    if !questions.Arr? then Some(NotAnArray)
    else
      match FirstFailure(questions.items, 0, CheckQuestion)
      case None => None
      case Some((k, p)) => Some(AtQuestion(k + 1, p))
  }

  /** The rules of an acceptable multiple-choice question, stated directly:
      an array with at least two non-empty choices and a whole-number
      `correctIndex` naming a non-empty one. */
  predicate MultipleChoiceRules(q: Value) {
    var choices := Get(q, "choices");
    var ci := Get(q, "correctIndex");
    && choices.Arr?
    && FilledCount(choices.items) >= 2
    && ci.Num?
    && ci.n.Floor as real == ci.n
    && 0 <= ci.n.Floor < |choices.items|
    && IsNonEmptyString(choices.items[ci.n.Floor])
  }

  /** An acceptable question, stated by kind rather than as a check sequence. */
  predicate IsAcceptableQuestion(q: Value) {
    var t := Get(q, "type");
    && IsObjectLike(q)
    && IsNonEmptyString(Get(q, "prompt"))
    && ((t == Str(MULTIPLE_CHOICE) && MultipleChoiceRules(q))
        || (t == Str(TRUE_FALSE) && Get(q, "correctBoolean").Bool?)
        || (t == Str(NARRATIVE) && IsNonEmptyString(Get(q, "rubric"))))
  }

  /** The multiple-choice checks pass exactly when the rules hold. */
  lemma CheckMultipleChoiceIff(q: Value)
    ensures CheckMultipleChoice(q) == None <==> MultipleChoiceRules(q)
  {
    var choices := Get(q, "choices");
    var ci := Get(q, "correctIndex");
    if choices.Arr? && ci.Num? && 0.0 <= ci.n < |choices.items| as real {
      if ci.n.Floor as real == ci.n {
        assert Index(choices, ci.n) == choices.items[ci.n.Floor];
      } else {
        assert Index(choices, ci.n) == Undefined;
      }
    }
  }

  /** The check sequence accepts exactly the acceptable questions. */
  lemma CheckQuestionIff(q: Value)
    ensures CheckQuestion(q) == None <==> IsAcceptableQuestion(q)
  {
    var t := Get(q, "type");
    KindNamesDistinct();
    if !IsObjectLike(q) || !IsNonEmptyString(t) || !IsNonEmptyString(Get(q, "prompt")) {
      assert CheckQuestion(q).Some?;
      assert !IsAcceptableQuestion(q);
    } else if t == Str(MULTIPLE_CHOICE) {
      CheckMultipleChoiceIff(q);
      assert CheckQuestion(q) == CheckMultipleChoice(q);
      assert IsAcceptableQuestion(q) == MultipleChoiceRules(q);
    } else if t == Str(TRUE_FALSE) {
      assert CheckQuestion(q) == None <==> Get(q, "correctBoolean").Bool?;
    } else if t == Str(NARRATIVE) {
      assert CheckQuestion(q) == None <==> IsNonEmptyString(Get(q, "rubric"));
    } else {
      assert CheckQuestion(q) == Some(UnsupportedType);
    }
  }

  /** The three kind names differ and each passes `isNonEmptyString`. */
  lemma KindNamesDistinct()
    ensures MULTIPLE_CHOICE != TRUE_FALSE && MULTIPLE_CHOICE != NARRATIVE && TRUE_FALSE != NARRATIVE
    ensures IsNonEmptyString(Str(MULTIPLE_CHOICE))
    ensures IsNonEmptyString(Str(TRUE_FALSE))
    ensures IsNonEmptyString(Str(NARRATIVE))
  {
    assert |MULTIPLE_CHOICE| == 15 && |TRUE_FALSE| == 10 && |NARRATIVE| == 9;
    assert !IsWhitespace(MULTIPLE_CHOICE[0]);
    assert !IsWhitespace(TRUE_FALSE[0]);
    assert !IsWhitespace(NARRATIVE[0]);
  }

  /** A list is accepted exactly when every element is acceptable. */
  lemma ValidateQuestionsIff(questions: Value)
    ensures ValidateQuestions(questions) == None <==>
      questions.Arr? && forall j :: 0 <= j < |questions.items| ==> IsAcceptableQuestion(questions.items[j])
  {
    if questions.Arr? {
      forall j | 0 <= j < |questions.items| {
        CheckQuestionIff(questions.items[j]);
      }
    }
  }

  /** The type is checked before the prompt: an object without a usable type
      reports the type whatever its prompt. */
  lemma TypeCheckedFirst(q: Value)
    requires IsObjectLike(q) && !IsNonEmptyString(Get(q, "type"))
    ensures CheckQuestion(q) == Some(TypeRequired)
  {
  }

  /** The prompt is checked before the kind: an unknown type with an empty
      prompt reports the prompt, not the type. */
  lemma PromptCheckedBeforeKind(q: Value)
    requires IsObjectLike(q) && IsNonEmptyString(Get(q, "type"))
    requires !IsNonEmptyString(Get(q, "prompt"))
    ensures CheckQuestion(q) == Some(PromptRequired)
  {
  }

  /** An unknown type with a usable prompt is reported as unsupported. */
  lemma UnknownTypeRejected(q: Value)
    requires IsObjectLike(q) && IsNonEmptyString(Get(q, "type")) && !IsKnownType(Get(q, "type"))
    requires IsNonEmptyString(Get(q, "prompt"))
    ensures CheckQuestion(q) == Some(UnsupportedType)
  {
  }

  /** `correctBoolean` must be a real boolean: a truthy number or string is
      refused. */
  lemma TrueFalseNeedsBoolean(q: Value)
    requires IsObjectLike(q) && Get(q, "type") == Str(TRUE_FALSE)
    requires IsNonEmptyString(Get(q, "prompt"))
    ensures CheckQuestion(q) == None <==> Get(q, "correctBoolean").Bool?
  {
    KindNamesDistinct();
  }

  /** The boundary of the choice rule: exactly two filled choices and an index
      naming one of them is accepted; a single filled choice is refused. */
  lemma TwoFilledChoicesBoundary(q: Value, a: string, b: string)
    requires IsObjectLike(q) && Get(q, "type") == Str(MULTIPLE_CHOICE)
    requires IsNonEmptyString(Get(q, "prompt")) && Get(q, "correctIndex") == Num(1.0)
    requires !IsBlank(a)
    ensures Get(q, "choices") == Arr([Str(a), Str(b)]) ==>
      (CheckQuestion(q) == None <==> !IsBlank(b))
    ensures Get(q, "choices") == Arr([Str(a), Str("")]) ==> CheckQuestion(q) == Some(TooFewChoices)
  {
    KindNamesDistinct();
    var xs := [Str(a), Str(b)];
    assert xs[1..] == [Str(b)];
    assert FilledCount(xs) == 1 + (if IsNonEmptyString(Str(b)) then 1 else 0);
    assert Index(Arr(xs), 1.0) == Str(b);
    var ys := [Str(a), Str("")];
    assert ys[1..] == [Str("")];
    assert FilledCount(ys) == 1;
  }
}
