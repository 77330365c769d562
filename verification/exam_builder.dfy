/** The exam-builder page: the question list the author edits, its
    list operations, and the `isValid` gate that enables publishing. */
module ExamBuilder {
  import opened Wrappers
  import opened JsText
  import opened Json
  import opened QuestionValidator
  import ExamRoutes

  /** A question being written. Every question carries the page's own id. */
  datatype Question =
    | MultipleChoice(id: string, prompt: string, choices: seq<string>, correctIndex: int)
    | TrueFalse(id: string, prompt: string, correctBoolean: bool)
    | Narrative(id: string, prompt: string, rubric: string)
  {
    /** The `type` field the page stores and sends. */
    function KindName(): string {
      match this
      case MultipleChoice(_, _, _, _) => MULTIPLE_CHOICE
      case TrueFalse(_, _, _) => TRUE_FALSE
      case Narrative(_, _, _) => NARRATIVE
    }
  }

  /** `createEmptyQuestion(type)`; `id` stands for `crypto.randomUUID()`.
      Any type other than the two named ones gives a narrative question. */
  function CreateEmptyQuestion(kind: string, id: string): (q: Question)
    ensures q.id == id && q.prompt == []
    ensures q.KindName() == (if kind == MULTIPLE_CHOICE || kind == TRUE_FALSE then kind else NARRATIVE)
    ensures q.MultipleChoice? ==> q.choices == ["", "", "", ""] && q.correctIndex == 0
    ensures q.TrueFalse? ==> q.correctBoolean
    ensures q.Narrative? ==> q.rubric == []
  {
    if kind == MULTIPLE_CHOICE then MultipleChoice(id, "", ["", "", "", ""], 0)
    else if kind == TRUE_FALSE then TrueFalse(id, "", true)
    else Narrative(id, "", "")
  }

  // ----- The `isValid` gate -----

  /** How many choices are non-blank: `choices.filter(c => c.trim().length > 0).length`. */
  function FilledChoices(choices: seq<string>): (n: nat)
    ensures n <= |choices|
  {
    if choices == [] then 0
    else (if IsBlank(choices[0]) then 0 else 1) + FilledChoices(choices[1..])
  }

  /** One question passes the page's loop: a prompt; for multiple choice at
      least two filled choices and a filled correct choice inside the list;
      for narrative a rubric; nothing more for true/false. */
  predicate QuestionComplete(q: Question) {
    && !IsBlank(q.prompt)
    && match q
       case MultipleChoice(_, _, choices, ci) =>
         FilledChoices(choices) >= 2 && 0 <= ci <= |choices| - 1 && !IsBlank(choices[ci])
       case TrueFalse(_, _, _) => true
       case Narrative(_, _, rubric) => !IsBlank(rubric)
  }

  /** `isValid`: title and department not blank, `Number(durationMinutes)`
      finite and positive, and every question complete. */
  predicate IsValid(title: string, department: string, duration: NumberValue, questions: seq<Question>) {
    && !IsBlank(title)
    && !IsBlank(department)
    && duration.IsPositive()
    && forall i :: 0 <= i < |questions| ==> QuestionComplete(questions[i])
  }

  /** A question fresh from `createEmptyQuestion` cannot be published yet,
      and the server would name its missing prompt. */
  lemma EmptyQuestionIncomplete(kind: string, id: string)
    ensures !QuestionComplete(CreateEmptyQuestion(kind, id))
    ensures CheckQuestion(Encode(CreateEmptyQuestion(kind, id))) == Some(PromptRequired)
  {
    var q := CreateEmptyQuestion(kind, id);
    assert Get(Encode(q), "prompt") == Str("");
    assert Get(Encode(q), "type") == Str(q.KindName());
    assert !IsBlank(q.KindName()) by {
      KindNamesDistinct();
    }
  }

  // ----- The payload the page builds -----

  function StrValues(xs: seq<string>): (r: seq<Value>)
    ensures |r| == |xs| && forall i :: 0 <= i < |xs| ==> r[i] == Str(xs[i])
  {
    seq(|xs|, i requires 0 <= i < |xs| => Str(xs[i]))
  }

  /** A question as `JSON.stringify` sends it. */
  function Encode(q: Question): (r: Value)
    ensures r.Obj? && Get(r, "id") == Str(q.id)
    ensures Get(r, "type") == Str(q.KindName()) && Get(r, "prompt") == Str(q.prompt)
    ensures q.MultipleChoice? ==>
      Get(r, "choices") == Arr(StrValues(q.choices)) && Get(r, "correctIndex") == Num(q.correctIndex as real)
    ensures q.TrueFalse? ==> Get(r, "correctBoolean") == Bool(q.correctBoolean)
    ensures q.Narrative? ==> Get(r, "rubric") == Str(q.rubric)
  {
    var common := map["id" := Str(q.id), "type" := Str(q.KindName()), "prompt" := Str(q.prompt)];
    match q
    case MultipleChoice(_, _, choices, ci) =>
      Obj(common["choices" := Arr(StrValues(choices))]["correctIndex" := Num(ci as real)])
    case TrueFalse(_, _, b) => Obj(common["correctBoolean" := Bool(b)])
    case Narrative(_, _, rubric) => Obj(common["rubric" := Str(rubric)])
  }

  function EncodeAll(qs: seq<Question>): (r: seq<Value>)
    ensures |r| == |qs| && forall i :: 0 <= i < |qs| ==> r[i] == Encode(qs[i])
  {
    seq(|qs|, i requires 0 <= i < |qs| => Encode(qs[i]))
  }

  /** `JSON.stringify` writes a non-finite number as `null`. */
  function DurationJson(d: NumberValue): Value {
    match d
    case Finite(x) => Num(x)
    case NotFinite => Null
  }

  /** A create body with the four fields the route reads. */
  function ExamBody(title: string, department: string, duration: Value, questions: seq<Value>): (r: Value)
    ensures Get(r, "examTitle") == Str(title)
    ensures Get(r, "department") == Str(department)
    ensures Get(r, "durationMinutes") == duration
    ensures Get(r, "questions") == Arr(questions)
  {
    Obj(map[
      "examTitle" := Str(title),
      "department" := Str(department),
      "durationMinutes" := duration,
      "questions" := Arr(questions)])
  }

  /** The `payload` of `publishExam`: trimmed title and department, the
      parsed duration and the question list as it stands. */
  function Payload(title: string, department: string, duration: NumberValue, questions: seq<Question>): Value {
    ExamBody(Trim(title), Trim(department), DurationJson(duration), EncodeAll(questions))
  }

  /** The server's filled-choice count of the encoded choices is the page's. */
  lemma {:induction false} FilledCountOfStrings(choices: seq<string>)
    ensures FilledCount(StrValues(choices)) == FilledChoices(choices)
    decreases |choices|
  {
    if choices != [] {
      assert StrValues(choices)[1..] == StrValues(choices[1..]);
      FilledCountOfStrings(choices[1..]);
    }
  }

  /** The multiple-choice rules of the server hold of encoded choices and
      index exactly when the page's multiple-choice conditions do. */
  lemma EncodedChoicesAgree(v: Value, choices: seq<string>, ci: int)
    requires Get(v, "choices") == Arr(StrValues(choices))
    requires Get(v, "correctIndex") == Num(ci as real)
    ensures MultipleChoiceRules(v) <==> FilledChoices(choices) >= 2 && 0 <= ci <= |choices| - 1 && !IsBlank(choices[ci])
  {
    FilledCountOfStrings(choices);
    assert (ci as real).Floor == ci;
  }

  /** The page and the server judge one question alike: the server's checks
      pass on the encoded question exactly when the page calls it complete. */
  lemma EncodedQuestionAgrees(q: Question)
    ensures CheckQuestion(Encode(q)) == None <==> QuestionComplete(q)
  {
    var v := Encode(q);
    CheckQuestionIff(v);
    KindNamesDistinct();
    match q
    case MultipleChoice(_, _, choices, ci) =>
      EncodedChoicesAgree(v, choices, ci);
    case TrueFalse(_, _, _) =>
    case Narrative(_, _, _) =>
  }

  /** Every encoded question passes the server exactly when every question
      is complete on the page. */
  lemma QuestionListAgrees(questions: seq<Question>)
    ensures (forall i :: 0 <= i < |questions| ==> IsAcceptableQuestion(EncodeAll(questions)[i])) <==>
            (forall i :: 0 <= i < |questions| ==> QuestionComplete(questions[i]))
  {
    var qs := EncodeAll(questions);
    forall i | 0 <= i < |questions|
      ensures IsAcceptableQuestion(qs[i]) <==> QuestionComplete(questions[i])
    {
      EncodedQuestionAgrees(questions[i]);
      CheckQuestionIff(qs[i]);
    }
  }

  /** The page enables publishing exactly when the server's create checks
      would accept the payload it builds, given that `Number` leaves a number
      alone and reads `null` as 0. */
  lemma PublishAgreesWithServer(title: string, department: string, duration: NumberValue,
                                questions: seq<Question>, number: Value -> NumberValue)
    requires forall x: real :: number(Num(x)) == Finite(x)
    requires number(Null) == Finite(0.0)
    ensures IsValid(title, department, duration, questions) <==>
      ExamRoutes.CreateRequestError(Payload(title, department, duration, questions), number) == None
  {
    var body := Payload(title, department, duration, questions);
    ExamRoutes.CreateRequestErrorIff(body, number);
    BodyPassesIff(body, title, department, duration, questions, number);
  }

  /** The server's create checks, stated field by field, hold of a body
      carrying the page's fields exactly when the page calls the exam valid. */
  lemma BodyPassesIff(body: Value, title: string, department: string, duration: NumberValue,
                      questions: seq<Question>, number: Value -> NumberValue)
    requires forall x: real :: number(Num(x)) == Finite(x)
    requires number(Null) == Finite(0.0)
    requires Get(body, "examTitle") == Str(Trim(title))
    requires Get(body, "department") == Str(Trim(department))
    requires Get(body, "durationMinutes") == DurationJson(duration)
    requires Get(body, "questions") == Arr(EncodeAll(questions))
    ensures IsValid(title, department, duration, questions) <==> ExamRoutes.CreateRequestOk(body, number)
  {
    assert ExamRoutes.CreateQuestions(body) == Arr(EncodeAll(questions));
    var qs := ExamRoutes.CreateQuestions(body).items;
    assert (forall i :: 0 <= i < |qs| ==> IsAcceptableQuestion(qs[i])) <==>
           (forall i :: 0 <= i < |questions| ==> QuestionComplete(questions[i])) by {
      QuestionListAgrees(questions);
    }
    assert IsNonEmptyString(Get(body, "examTitle")) <==> !IsBlank(title) by {
      TrimBlankIff(title);
    }
    assert IsNonEmptyString(Get(body, "department")) <==> !IsBlank(department) by {
      TrimBlankIff(department);
    }
    assert number(Get(body, "durationMinutes")).IsPositive() <==> duration.IsPositive() by {
      match duration
      case Finite(x) => assert number(Num(x)) == Finite(x);
      case NotFinite =>
    }
  }

  // ----- Reordering -----

  /** `list.findIndex(q => q.id === id)`: the first position with that id,
      or -1. */
  function FindIndex(list: seq<Question>, id: string): (i: int)
    ensures -1 <= i < |list|
    ensures i >= 0 ==> list[i].id == id && forall k :: 0 <= k < i ==> list[k].id != id
    ensures i == -1 <==> forall k :: 0 <= k < |list| ==> list[k].id != id
  {
    if list == [] then -1
    else if list[0].id == id then 0
    else
      var j := FindIndex(list[1..], id);
      if j == -1 then -1 else j + 1
  }

  function RemoveAt<T>(s: seq<T>, i: nat): (r: seq<T>)
    requires i < |s|
    ensures |r| == |s| - 1
  {
    s[..i] + s[i + 1..]
  }

  function InsertAt<T>(s: seq<T>, i: nat, x: T): (r: seq<T>)
    requires i <= |s|
    ensures |r| == |s| + 1
  {
    s[..i] + [x] + s[i..]
  }

  /** Taking an element out and putting it back where it was is the identity. */
  lemma InsertRemoveAt<T>(s: seq<T>, i: nat, x: T)
    requires i <= |s|
    ensures InsertAt(s, i, x)[i] == x
    ensures RemoveAt(InsertAt(s, i, x), i) == s
  {
    var t := InsertAt(s, i, x);
    assert t[..i] == s[..i];
    assert t[i + 1..] == s[i..];
  }

  lemma RemoveAtMultiset<T>(s: seq<T>, i: nat)
    requires i < |s|
    ensures multiset(RemoveAt(s, i)) + multiset{s[i]} == multiset(s)
  {
    assert s == s[..i] + [s[i]] + s[i + 1..];
  }

  /** Whether `reorderByIds` moves anything: both ids given (non-empty),
      different, and both found. */
  predicate MovesSomething(list: seq<Question>, sourceId: string, targetId: string) {
    sourceId != [] && targetId != [] && sourceId != targetId
    && FindIndex(list, sourceId) != -1 && FindIndex(list, targetId) != -1
  }

  /** `reorderByIds(list, sourceId, targetId)`: the dragged question is
      taken out and put in at the target's original position. */
  function ReorderByIds(list: seq<Question>, sourceId: string, targetId: string): (r: seq<Question>)
    ensures |r| == |list|
    ensures multiset(r) == multiset(list)
    ensures !MovesSomething(list, sourceId, targetId) ==> r == list
    ensures MovesSomething(list, sourceId, targetId) ==>
      var s := FindIndex(list, sourceId);
      var t := FindIndex(list, targetId);
      && r[t] == list[s]
      && RemoveAt(r, t) == RemoveAt(list, s)
      && r == InsertAt(RemoveAt(list, s), t, list[s])
  {
    if !MovesSomething(list, sourceId, targetId) then list
    else
      var s := FindIndex(list, sourceId);
      var t := FindIndex(list, targetId);
      var rest := RemoveAt(list, s);
      var r := InsertAt(rest, t, list[s]);
      InsertRemoveAt(rest, t, list[s]);
      RemoveAtMultiset(list, s);
      assert r == rest[..t] + [list[s]] + rest[t..];
      assert rest == rest[..t] + rest[t..];
      r
  }

  /** What sits at position `k` once the element at `s` has moved to `t`:
      outside the span everything keeps its place, inside it shifts by one
      toward the source, and the moved element lands on `t`. */
  function MovedAt<T>(list: seq<T>, s: nat, t: nat, k: nat): T
    requires s < |list| && t < |list| && k < |list|
  {
    if k == t then list[s]
    else if s < t && s <= k < t then list[k + 1]
    else if t < s && t < k <= s then list[k - 1]
    else list[k]
  }

  lemma MovePositions<T>(list: seq<T>, s: nat, t: nat)
    requires s < |list| && t < |list|
    ensures
      var r := InsertAt(RemoveAt(list, s), t, list[s]);
      forall k :: 0 <= k < |list| ==> r[k] == MovedAt(list, s, t, k)
  {
    var rest := RemoveAt(list, s);
    assert forall j :: 0 <= j < |rest| ==> rest[j] == if j < s then list[j] else list[j + 1];
    var r := InsertAt(rest, t, list[s]);
    assert forall k :: 0 <= k < |r| ==> r[k] == if k < t then rest[k] else if k == t then list[s] else rest[k - 1];
  }

  /** Where every question ends up after `reorderByIds`. */
  lemma ReorderPositions(list: seq<Question>, sourceId: string, targetId: string)
    requires MovesSomething(list, sourceId, targetId)
    ensures forall k :: 0 <= k < |list| ==>
      ReorderByIds(list, sourceId, targetId)[k] ==
        MovedAt(list, FindIndex(list, sourceId), FindIndex(list, targetId), k)
  {
    MovePositions(list, FindIndex(list, sourceId), FindIndex(list, targetId));
  }

  // ----- Id-scoped edits -----

  /** `list.filter(q => q.id !== id)`. */
  function RemoveQuestion(list: seq<Question>, id: string): (r: seq<Question>)
    ensures |r| <= |list|
    ensures forall k :: 0 <= k < |r| ==> r[k].id != id
  {
    if list == [] then []
    else (if list[0].id == id then [] else [list[0]]) + RemoveQuestion(list[1..], id)
  }

  /** Removing by id drops every question with that id and keeps every
      other one, as often as it occurs. */
  lemma {:induction false} RemoveQuestionCounts(list: seq<Question>, id: string)
    ensures forall q :: multiset(RemoveQuestion(list, id))[q] == if q.id == id then 0 else multiset(list)[q]
  {
    if list != [] {
      RemoveQuestionCounts(list[1..], id);
      assert list == [list[0]] + list[1..];
    }
  }

  /** Removing distributes over concatenation, so the questions that stay
      keep their order. */
  lemma {:induction false} RemoveQuestionAppend(a: seq<Question>, b: seq<Question>, id: string)
    ensures RemoveQuestion(a + b, id) == RemoveQuestion(a, id) + RemoveQuestion(b, id)
    decreases |a|
  {
    if a != [] {
      assert (a + b)[0] == a[0];
      assert (a + b)[1..] == a[1..] + b;
      RemoveQuestionAppend(a[1..], b, id);
      assert RemoveQuestion(a, id) == (if a[0].id == id then [] else [a[0]]) + RemoveQuestion(a[1..], id);
      assert RemoveQuestion(a + b, id) == (if a[0].id == id then [] else [a[0]]) + RemoveQuestion(a[1..] + b, id);
    } else {
      assert a + b == b;
    }
  }

  /** `prev.map(q => q.id === id ? f(q) : q)`. */
  function EditWhere(list: seq<Question>, id: string, f: Question -> Question): (r: seq<Question>)
    ensures |r| == |list|
    ensures forall i :: 0 <= i < |list| ==> r[i] == if list[i].id == id then f(list[i]) else list[i]
  {
    seq(|list|, i requires 0 <= i < |list| => if list[i].id == id then f(list[i]) else list[i])
  }

  /** The field patches the page issues through `updateQuestion`. */
  datatype Edit =
    | SetPrompt(text: string)
    | SetCorrectIndex(index: int)
    | SetCorrectBoolean(flag: bool)
    | SetRubric(text: string)

  /** `{ ...q, ...patch }`. A patch naming a field the question's kind
      lacks leaves the question as it is. */
  function ApplyEdit(q: Question, e: Edit): (r: Question)
    ensures r.id == q.id && r.KindName() == q.KindName()
    ensures e.SetPrompt? ==> r == q.(prompt := e.text)
    ensures !e.SetPrompt? ==> r.prompt == q.prompt
    ensures e.SetCorrectIndex? && q.MultipleChoice? ==> r == q.(correctIndex := e.index)
    ensures e.SetCorrectBoolean? && q.TrueFalse? ==> r == q.(correctBoolean := e.flag)
    ensures e.SetRubric? && q.Narrative? ==> r == q.(rubric := e.text)
  {
    match e
    case SetPrompt(text) => q.(prompt := text)
    case SetCorrectIndex(i) => if q.MultipleChoice? then q.(correctIndex := i) else q
    case SetCorrectBoolean(b) => if q.TrueFalse? then q.(correctBoolean := b) else q
    case SetRubric(text) => if q.Narrative? then q.(rubric := text) else q
  }

  function UpdateQuestion(list: seq<Question>, id: string, e: Edit): (r: seq<Question>)
    ensures |r| == |list|
    ensures forall i :: 0 <= i < |list| ==>
      && r[i].id == list[i].id
      && r[i].KindName() == list[i].KindName()
      && (list[i].id != id ==> r[i] == list[i])
      && (list[i].id == id ==> r[i] == ApplyEdit(list[i], e))
  {
    EditWhere(list, id, q => ApplyEdit(q, e))
  }

  /** `nextChoices[choiceIndex] = value` on a multiple-choice question. */
  function SetChoice(q: Question, index: int, value: string): (r: Question)
    ensures r.id == q.id && r.KindName() == q.KindName()
    ensures r.MultipleChoice? ==> |r.choices| == |q.choices| && r.correctIndex == q.correctIndex
  {
    if q.MultipleChoice? && 0 <= index < |q.choices| then q.(choices := q.choices[index := value]) else q
  }

  /** `updateChoice(id, index, value)`: one slot of the matching
      multiple-choice question takes the new text. */
  function UpdateChoice(list: seq<Question>, id: string, index: int, value: string): (r: seq<Question>)
    ensures |r| == |list|
    ensures forall i :: 0 <= i < |list| ==>
      && r[i].id == list[i].id
      && (list[i].id != id || !list[i].MultipleChoice? ==> r[i] == list[i])
      && (list[i].id == id && list[i].MultipleChoice? && 0 <= index < |list[i].choices| ==>
            && r[i].MultipleChoice?
            && |r[i].choices| == |list[i].choices|
            && r[i].choices[index] == value
            && (forall k :: 0 <= k < |r[i].choices| && k != index ==> r[i].choices[k] == list[i].choices[k])
            && r[i] == list[i].(choices := list[i].choices[index := value]))
  {
    EditWhere(list, id, q => SetChoice(q, index, value))
  }

  function AppendChoice(q: Question): (r: Question)
    ensures r.id == q.id && r.KindName() == q.KindName()
  {
    if q.MultipleChoice? then q.(choices := q.choices + [""]) else q
  }

  /** `addChoice(id)`: the matching multiple-choice question gets one more,
      empty, choice at the end. */
  function AddChoice(list: seq<Question>, id: string): (r: seq<Question>)
    ensures |r| == |list|
    ensures forall i :: 0 <= i < |list| ==>
      && r[i].id == list[i].id
      && (list[i].id != id || !list[i].MultipleChoice? ==> r[i] == list[i])
      && (list[i].id == id && list[i].MultipleChoice? ==>
            && r[i].MultipleChoice?
            && r[i].choices == list[i].choices + [""]
            && r[i].prompt == list[i].prompt && r[i].correctIndex == list[i].correctIndex)
  {
    EditWhere(list, id, AppendChoice)
  }

  /** `choices.filter((_, idx) => idx !== choiceIndex)`. */
  function WithoutIndex(choices: seq<string>, index: int): (r: seq<string>)
    ensures 0 <= index < |choices| ==> |r| == |choices| - 1
    ensures !(0 <= index < |choices|) ==> r == choices
  {
    if 0 <= index < |choices| then RemoveAt(choices, index) else choices
  }

  /** The new `correctIndex` after removing the choice at `index`. */
  function FixCorrectIndex(correct: int, index: int): int {
    if index == correct then 0
    else if index < correct then (if correct - 1 > 0 then correct - 1 else 0)
    else correct
  }

  /** One question of `removeChoice`: only a multiple-choice question with
      more than two choices loses one. */
  function DropChoice(q: Question, index: int): (r: Question)
    ensures r.id == q.id && r.KindName() == q.KindName()
    ensures !q.MultipleChoice? || |q.choices| <= 2 ==> r == q
  {
    if !q.MultipleChoice? || |q.choices| <= 2 then q
    else q.(choices := WithoutIndex(q.choices, index), correctIndex := FixCorrectIndex(q.correctIndex, index))
  }

  /** Removing a choice drops exactly that slot and keeps at least two. The
      correct index falls back to the first choice when its choice is the
      one removed, moves down by one when an earlier choice goes, and stays
      when a later one goes, so it names the same slot as before. */
  lemma DropChoiceFixup(q: Question, index: int)
    requires q.MultipleChoice? && |q.choices| > 2 && 0 <= index < |q.choices|
    ensures
      var r := DropChoice(q, index);
      && r.MultipleChoice?
      && |r.choices| == |q.choices| - 1 >= 2
      && r.choices == q.choices[..index] + q.choices[index + 1..]
      && multiset(r.choices) + multiset{q.choices[index]} == multiset(q.choices)
      && r.prompt == q.prompt
      && (index == q.correctIndex ==> r.correctIndex == 0)
      && (index < q.correctIndex ==> r.correctIndex == q.correctIndex - 1)
      && (index > q.correctIndex ==> r.correctIndex == q.correctIndex)
      && (0 <= q.correctIndex < |q.choices| ==> 0 <= r.correctIndex < |r.choices|)
      && (0 <= q.correctIndex < |q.choices| && index != q.correctIndex ==>
            r.choices[r.correctIndex] == q.choices[q.correctIndex])
  {
    RemoveAtMultiset(q.choices, index);
    var r := DropChoice(q, index);
    var ci := q.correctIndex;
    if 0 <= ci < |q.choices| && index != ci {
      if index < ci {
        assert r.choices[ci - 1] == q.choices[ci];
      } else {
        assert r.choices[ci] == q.choices[ci];
      }
    }
  }

  /** `removeChoice(id, index)`. */
  function RemoveChoice(list: seq<Question>, id: string, index: int): (r: seq<Question>)
    ensures |r| == |list|
    ensures forall i :: 0 <= i < |list| ==>
      && r[i].id == list[i].id
      && (list[i].id != id ==> r[i] == list[i])
      && (list[i].id == id ==> r[i] == DropChoice(list[i], index))
  {
    EditWhere(list, id, q => DropChoice(q, index))
  }

  /** `addQuestion()`: a fresh question of the selected kind at the end. */
  function AddQuestion(list: seq<Question>, kind: string, id: string): (r: seq<Question>)
    ensures |r| == |list| + 1 && r[..|list|] == list
    ensures r[|list|] == CreateEmptyQuestion(kind, id)
  {
    list + [CreateEmptyQuestion(kind, id)]
  }
}
