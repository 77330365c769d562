# School authentication prototype: a Dafny model of its rules

This project models the validation and decision logic of a small exam and
account application. The application has three parts. An Express/Mongoose
server has account, user-administration and exam routes. A React exam builder
writes the questions. Two React administration pages manage users and the
signed-in account. The model keeps what those parts decide, with the same
branches, messages and status codes, and proves what the decisions guarantee.
Persistence, hashing, tokens and the browser are outside the model.

- `wrappers.dfy`, `json.dfy`: `Option` and the JSON values a route receives.
  The same file holds the HTTP response shape and the `mongoose.isValidObjectId`
  rule.
- `jstext.dfy`: `trim`, `toLowerCase`, `includes`, `split(" ")` and the number
  rendering in validation messages.
- `email.dfy`: the address pattern `/^[^\s@]+@[^\s@]+\.[^\s@]+$/`,
  `normalizeEmail` and the reserved administrator address.
- `user_model.dfy`: the `User` schema as a record invariant, the user collection
  with its unique e-mail index, and the insert shared by registration and
  applicant creation.
- `auth_routes.dfy`, `auth_middleware.dfy`: register, login, `/me` and the
  Bearer-header gate.
- `user_routes.dfy`, `user_listing.dfy`: the administrator's user routes.
- `exam_model.dfy`, `question_validator.dfy`, `exam_routes.dfy`: the `Exam`
  schema, `validateQuestions` and the five owner-scoped exam routes.
- `exam_builder.dfy`: the exam builder's question list, its edits and the
  `isValid` gate, related to what the server accepts.
- `user_management.dfy`, `account_management.dfy`: the two administration
  pages' form rules, list filter and sort, and in-memory edits.
- `sorting.dfy`: the stable descending insertion sort behind the listings, and
  `filter`.

Stores are maps from document id to document. Timestamps are abstract natural
numbers, and the clock reading is a parameter. bcrypt, JWT verification and
JavaScript's `Number()` are parameters too.

## Model

| member | source | states |
|---|---|---|
| JsText.TrimStart | server/src/routes/auth.js:13-15 | the leading part removed is all whitespace, and what is left starts with a non-whitespace character or is empty |
| JsText.TrimEnd | server/src/routes/auth.js:13-15 | the trailing part removed is all whitespace, and what is left ends with a non-whitespace character or is empty |
| JsText.Trim | server/src/routes/auth.js:13-15 | the result of `trim()` neither starts nor ends with whitespace and is no longer than the input |
| JsText.TrimInfix | server/src/routes/auth.js:13-15 | what `trim()` keeps occurs in the original string |
| JsText.TrimEmptyIff | server/src/routes/auth.js:13-15 | `s.trim()` is empty exactly when `s` is all whitespace, which is when `isNonEmptyString` fails |
| JsText.TrimOfNonBlank | server/src/routes/auth.js:13-15 | a string that is not all whitespace keeps something after trimming |
| JsText.NoWhitespaceTrimmed | server/src/routes/auth.js:13-15 | a string without whitespace is its own trim |
| JsText.TrimOfTrimmed | server/src/routes/auth.js:13-15 | trimming a string that neither starts nor ends with whitespace changes nothing |
| JsText.TrimBlankIff | server/src/routes/auth.js:13-15 | a string is blank exactly when its trim is |
| JsText.TrimIdempotent | server/src/routes/auth.js:13-15 | trimming twice gives the same as trimming once |
| JsText.ToLower | server/src/routes/auth.js:17-19 | `toLowerCase` keeps the length and every whitespace position, leaves no upper-case letter, and changes no other character |
| JsText.ToLowerIdempotent | server/src/routes/auth.js:17-19 | lower-casing twice gives the same as lower-casing once |
| JsText.TrimStartToLower | server/src/routes/auth.js:17-19 | lower-casing commutes with cutting the leading whitespace |
| JsText.TrimEndToLower | server/src/routes/auth.js:17-19 | lower-casing commutes with cutting the trailing whitespace |
| JsText.TrimToLowerCommute | server/src/routes/auth.js:17-19 | `s.trim().toLowerCase()` equals `s.toLowerCase().trim()` |
| JsText.IncludesIff | client/src/pages/UserManagement.jsx:243-247 | `includes` holds exactly when the term occurs at some offset |
| JsText.SplitSpaces | server/src/middleware/auth.js:5 | `split(" ")` gives at least one piece, no piece contains a space, and joining the pieces with spaces restores the string |
| JsText.SplitSpacesCons | server/src/middleware/auth.js:5 | a space-free head followed by a space splits off as the first piece |
| JsText.NatToString | server/src/routes/exams.js:17 | the question number in a message is a string of decimal digits without a leading zero that denotes the number |
| Json.Index | server/src/routes/exams.js:31 | `choices[correctIndex]` is defined only for an array and a whole, in-range index |
| Json.IsNonEmptyStringIff | server/src/routes/exams.js:8-10 | `isNonEmptyString(v)` holds exactly when `v` is a string with a non-empty trim |
| Json.NonEmptyStringIsTruthy | server/src/routes/exams.js:8-10 | a value passing `isNonEmptyString` is truthy, so `questions \|\| []` and similar keep it |
| Wrappers.MapAll | server/src/models/Exam.js:33 | casting a list succeeds exactly when every element casts, and then gives each element's cast in order |
| Emails.ValidEmailSplits | server/src/routes/auth.js:9-11 | an address the direct test accepts splits into three `[^\s@]+` runs around an `@` and a later `.` |
| Emails.SplitAddressChars | server/src/routes/auth.js:9-11 | in an address that splits, every character except the `@` is in the class `[^\s@]` |
| Emails.SplitIsValid | server/src/routes/auth.js:9-11 | any string that splits as the pattern requires passes the direct test |
| Emails.IsValidEmailIff | server/src/routes/auth.js:9-11 | the direct test accepts exactly the strings the regular expression matches |
| Emails.NormalizeEmail | server/src/routes/auth.js:17-19 | a normalized address is trimmed, has no upper-case letter and is no longer than the input |
| Emails.NormalizedIff | server/src/routes/auth.js:17-19 | normalization leaves an address unchanged exactly when it is already trimmed and lower-case |
| Emails.NormalizeEmailIdempotent | server/src/routes/users.js:17-19 | normalizing twice gives the same as normalizing once |
| Emails.ValidEmailNormalizesByLowering | server/src/routes/auth.js:37-44 | for an address that passed the format check, normalizing only lower-cases it |
| Emails.NormalizeEmailNonEmpty | server/src/routes/auth.js:37-44 | a valid address normalizes to a non-empty one, as the required `email` field needs |
| Emails.ProtectionIgnoresNormalization | server/src/routes/users.js:21-23 | the reserved-address test gives the same answer before and after normalization, so case and surrounding whitespace do not matter |
| Emails.ReservedAddressIsProtected | server/src/routes/users.js:21-23 | "admin@gmail.com" itself is protected and already lower-case |
| Emails.ValidEmailLowered | client/src/pages/UserManagement.jsx:445 | lower-casing a valid address keeps it valid |
| Emails.LetterAddressValid | server/src/routes/auth.js:9-11 | any three non-empty runs of lower-case letters joined by `@` and `.` form a valid address |
| Emails.PlainAddressTrimmed | server/src/routes/auth.js:17-19 | an address of lower-case letters, `@` and `.` is its own trim |
| Emails.PlainAddressLowered | server/src/routes/auth.js:17-19 | an address of lower-case letters, `@` and `.` is its own lower-case form |
| UserSchema.FindByEmail | server/src/routes/auth.js:46 | `findOne({ email })` finds a user exactly when one has that address, and the one it finds has it |
| UserSchema.AddUserKeepsStoreOk | server/src/models/User.js:5-10 | adding a valid user whose address is not taken keeps every user valid and the e-mail index unique |
| UserSchema.ReplaceUserKeepsStoreOk | server/src/models/User.js:5-10 | replacing a user by a valid one with the same address keeps the collection valid |
| UserSchema.CreateUser | server/src/models/User.js:5-7 | `User.create` stores the document exactly when the name has 2 to 80 characters and the hash is present; the collection stays valid |
| UserSchema.SaveUser | server/src/routes/auth.js:55-72 | a create that passes the schema answers 201 with the stored user; one that fails answers 500 and stores nothing |
| UserSchema.InsertExtends | server/src/routes/auth.js:55-61 | storing under a fresh id adds exactly that id and keeps every other user |
| UserSchema.InsertNewUser | server/src/routes/auth.js:44-72 | a taken normalized address gives 409 exactly; success stores the trimmed name, the normalized address, the given role and status Active, and keeps the collection valid; a failure stores nothing |
| AuthRoutes.RoleFor | server/src/routes/auth.js:53 | registration grants admin exactly to the address "admin@gmail.com" |
| AuthRoutes.RegisterRequestError | server/src/routes/auth.js:34-42 | a missing or blank field is reported first, then a malformed address, then a password under 8 characters; the request passes exactly when none of these holds |
| AuthRoutes.RegisterUser | server/src/routes/auth.js:44-61 | a registered user is admin exactly when the address is the reserved one |
| AuthRoutes.Register | server/src/routes/auth.js:30-72 | a failed request check answers 400 with its message and stores nothing; otherwise registration continues with the body's name and address |
| AuthRoutes.RegisterSucceedsIff | server/src/routes/auth.js:30-72 | registration succeeds exactly when the checks pass, the normalized address is free, the trimmed name has 2 to 80 characters and a hash exists |
| AuthRoutes.Login | server/src/routes/auth.js:75-111 | a missing or blank e-mail or password answers 400 "email and password are required"; a malformed address then answers 400 "Invalid email format"; a successful login needs a stored active user with that normalized address and a matching password; 403 always carries "Account is disabled" and 401 always the shared credentials message |
| AuthRoutes.LoginOutcomes | server/src/routes/auth.js:86-100 | an unknown address and a wrong password give the same 401, and a disabled account gets 403 whatever the password |
| AuthRoutes.LoginFindsUser | server/src/routes/auth.js:86-103 | a well-formed request for an active user whose password matches logs that user in |
| AuthRoutes.RegisterThenLogin | server/src/routes/auth.js:30-111 | whoever registers can log in with the same body and get the stored user back |
| AuthRoutes.Me | server/src/routes/auth.js:114-128 | `/me` answers with the user exactly when the id is valid, stored and active; a missing user gives 404 and a disabled one 403 |
| AuthMiddleware.SplitSpacesShape | server/src/middleware/auth.js:5 | the first two pieces of `split(" ")` are the text before the first space and the text up to the next one |
| AuthMiddleware.BearerToken | server/src/middleware/auth.js:4-7 | a token is read only from a header that starts "Bearer " and continues with that non-empty, space-free token |
| AuthMiddleware.BearerTokenPresentIff | server/src/middleware/auth.js:4-9 | a token is read exactly when the header starts with "Bearer " followed by a character other than a space |
| AuthMiddleware.BearerTokenRoundTrip | server/src/middleware/auth.js:5 | writing "Bearer " and a space-free token reads the token back, whatever follows a further space |
| AuthMiddleware.BearerTokenIff | server/src/middleware/auth.js:5-7 | the token read is the only one the header carries in the Bearer shape |
| AuthMiddleware.RequireAuth | server/src/middleware/auth.js:3-18 | the gate passes exactly when the header carries a token that verifies, and passes that token's claims; every refusal is 401, with the header message exactly when no token is carried |
| AuthMiddleware.MalformedHeadersRefused | server/src/middleware/auth.js:4-9 | no header, "Bearer" alone, a lower-case scheme and a double space are all refused for the header |
| AuthMiddleware.BearerHeaderPasses | server/src/middleware/auth.js:11-17 | a well-formed header passes with the claims its token verifies to, and is refused with the token message otherwise |
| UserRoutes.ApplicantRequestError | server/src/routes/users.js:51-61 | a missing name or one under 2 trimmed characters is reported first, then a missing or malformed address, then a missing password or one under 8 characters; the request passes exactly when none of these holds |
| UserRoutes.AddApplicant | server/src/routes/users.js:63-82 | the reserved address is refused with 400 and nothing is stored; any other address goes through the shared insert with the applicant role |
| UserRoutes.CreateApplicant | server/src/routes/users.js:47-99 | a failed request check answers 400 with its message and stores nothing; otherwise the applicant is added |
| UserRoutes.AddApplicantNeverProtected | server/src/routes/users.js:63-82 | a created applicant never has the reserved address |
| UserRoutes.CreateApplicantSafe | server/src/routes/users.js:47-99 | creating an applicant keeps the collection valid, adds at most the new id, changes no existing user and never stores the reserved address |
| UserRoutes.StatusFrom | server/src/routes/users.js:115-117 | only exactly "Active" or "Disabled" names a status |
| UserRoutes.SetStatus | server/src/routes/users.js:106-144 | invalid id 400, other status 400, missing user 404, reserved address 403 "admin@gmail.com cannot be disabled"; on success only the status changes, and `updatedAt` becomes the clock reading exactly when the status changed |
| UserRoutes.SetStatusKeepsStoreOk | server/src/routes/users.js:126-127 | setting a status keeps the collection valid |
| UserRoutes.DeleteUser | server/src/routes/users.js:150-171 | invalid id 400, missing user 404, reserved address 403 "admin@gmail.com cannot be deleted"; delete succeeds exactly for a valid, stored, unprotected id and then removes that id only; every failure stores nothing |
| UserRoutes.ReservedAdminKeepsStatus | server/src/routes/users.js:122-124 | the reserved administrator's record is unchanged by any status request |
| UserRoutes.ReservedAdminNotDeleted | server/src/routes/users.js:161-163 | the reserved administrator survives any delete request |
| UserRoutes.DeleteUserKeepsStoreOk | server/src/routes/users.js:165 | deleting keeps the collection valid |
| UserListing.ListUsers | server/src/routes/users.js:29-40 | the listing has one row per user, each row summarizes a stored user, every user appears, and newer accounts come first |
| UserListing.RowsCount | server/src/routes/users.js:31-33 | the rows, without the hash, are as many as the users |
| Sorting.InsertDesc | server/src/routes/exams.js:103-104 | inserting into a descending list keeps it descending and adds exactly that element |
| Sorting.SortDesc | server/src/routes/exams.js:103-104 | sorting gives a descending permutation of the input |
| Sorting.SetToSeq | server/src/routes/users.js:31 | the result lists every element of the set exactly once |
| Sorting.ListedOnceDistinct | server/src/routes/users.js:31 | a list with the set's multiset has no repeats and the same members |
| Sorting.Filter | client/src/pages/UserManagement.jsx:238-252 | `filter` keeps only elements that pass |
| Sorting.FilterCounts | client/src/pages/UserManagement.jsx:238-252 | `filter` keeps every passing element as often as it occurs and drops every other |
| Sorting.FilterLength | client/src/pages/UserManagement.jsx:265-274 | the filtered list is as long as the count of passing elements |
| ExamSchema.NonEmptyCount | server/src/models/Exam.js:13 | at most as many choices are non-empty as there are choices |
| ExamSchema.TrimAll | server/src/models/Exam.js:13 | the schema stores each string choice trimmed, in order |
| ExamSchema.CastQuestion | server/src/models/Exam.js:3-23 | a cast question keeps the request's type and stores its prompt trimmed, and casting succeeds only when every sub-schema field present (choices, correctIndex, correctBoolean, rubric) has its declared type, whatever the question's kind |
| ExamSchema.CastQuestions | server/src/models/Exam.js:33 | a list casts exactly when every question casts, element by element |
| ExamSchema.CastAcceptedQuestion | server/src/models/Exam.js:12-20 | a question the route accepted fails to cast exactly when some sub-schema field it carries does not have its declared type |
| ExamSchema.ForeignFieldFailsCast | server/src/models/Exam.js:12-20 | a true/false question the route accepts still fails to cast when it carries a text `correctIndex`, a field of another kind |
| ExamSchema.FilledCountTrimmed | server/src/models/Exam.js:13 | trimming string choices keeps exactly the filled ones non-empty |
| ExamSchema.CastMultipleChoiceWellFormed | server/src/routes/exams.js:22-33 | an accepted, cast multiple-choice question has a filled prompt, at least two non-empty trimmed choices and a non-empty correct choice |
| ExamSchema.TrimmedChoicesWellFormed | server/src/models/Exam.js:10-14 | the trimmed prompt and choices of an accepted multiple-choice question make a well-formed stored question |
| ExamSchema.CastQuestionWellFormed | server/src/routes/exams.js:12-50 | every accepted, cast question satisfies the stored-question invariant |
| ExamSchema.CastQuestionsWellFormed | server/src/routes/exams.js:73-81 | every question of an accepted, cast list satisfies the stored-question invariant |
| QuestionValidator.FilledCount | server/src/routes/exams.js:24 | the filled choices are at most all the choices |
| QuestionValidator.FirstFailure | server/src/routes/exams.js:15-47 | the scan finds nothing exactly when every element passes, else the first failing position with its problem |
| QuestionValidator.ValidateQuestions | server/src/routes/exams.js:12-50 | `null` exactly for an array whose every question passes; a non-array is reported as such; otherwise the first failing question, numbered from 1, with its problem |
| QuestionValidator.CheckMultipleChoiceIff | server/src/routes/exams.js:22-33 | the multiple-choice checks pass exactly when there are at least two filled choices and a whole, in-range index names a filled one |
| QuestionValidator.CheckQuestionIff | server/src/routes/exams.js:16-46 | the check sequence accepts exactly the objects with a prompt whose kind's rules hold: multiple choice, a real boolean, or a non-blank rubric |
| QuestionValidator.KindNamesDistinct | server/src/routes/exams.js:44 | the three kind names differ and each is a non-blank string |
| QuestionValidator.ValidateQuestionsIff | server/src/routes/exams.js:12-50 | a list is accepted exactly when it is an array of acceptable questions |
| QuestionValidator.TypeCheckedFirst | server/src/routes/exams.js:19 | an object without a usable type reports the type whatever else is wrong |
| QuestionValidator.PromptCheckedBeforeKind | server/src/routes/exams.js:19-20 | a usable type with an empty prompt reports the prompt, even for an unknown type |
| QuestionValidator.UnknownTypeRejected | server/src/routes/exams.js:44-46 | an unknown type with a prompt is reported as unsupported |
| QuestionValidator.TrueFalseNeedsBoolean | server/src/routes/exams.js:35-38 | a true/false question passes exactly when `correctBoolean` is a real boolean |
| QuestionValidator.TwoFilledChoicesBoundary | server/src/routes/exams.js:24-32 | with two choices, the first filled and index 1, the question is accepted exactly when the second is filled; an empty second choice is reported as too few choices |
| ExamRoutes.CreateRequestError | server/src/routes/exams.js:60-74 | a blank title is reported first, then a blank department, then a duration that is not a finite positive number, then the first question error; with none the request passes |
| ExamRoutes.CreateRequestErrorIff | server/src/routes/exams.js:60-74 | the create checks pass exactly when title and department are non-blank, the duration is finite and positive, and `questions \|\| []` is an array of acceptable questions |
| ExamRoutes.CreateStatus | server/src/routes/exams.js:71 | a created exam is published exactly when the body's status is "published" |
| ExamRoutes.StoreExam | server/src/routes/exams.js:76-89 | `Exam.create` succeeds exactly when the questions cast and the schema accepts; it answers 201 and stores the trimmed fields; a failure is a 500 that stores nothing |
| ExamRoutes.NewExamFitsSchema | server/src/models/Exam.js:25-38 | an exam built from checked, trimmed fields that the schema does not reject satisfies the whole schema |
| ExamRoutes.Create | server/src/routes/exams.js:56-90 | a failed check answers 400 with its message; a failure stores nothing; a success stores the new exam under the fresh id, and it fits the schema |
| ExamRoutes.CreateStored | server/src/routes/exams.js:76-85 | a created exam has the trimmed title and department, the caller as owner, "published" only when asked, equal timestamps, and status 201 |
| ExamRoutes.CreateSucceedsIff | server/src/routes/exams.js:56-90 | create succeeds exactly when the checks pass, the trimmed fields fit their limits, the duration is at least 1, every question casts and the caller id is valid |
| ExamRoutes.FractionalDurationIsServerError | server/src/models/Exam.js:29 | a duration between 0 and 1 passes the route's check and fails the schema, giving 500 |
| ExamRoutes.CreateThenGet | server/src/routes/exams.js:117-133 | a created exam reads back for its owner and for nobody else |
| ExamRoutes.GetExam | server/src/routes/exams.js:117-133 | an invalid id gives 400; the exam is returned exactly when the caller owns it; a missing and a foreign exam both give the same 404 |
| ExamRoutes.DeleteExam | server/src/routes/exams.js:199-214 | delete succeeds exactly when the caller owns the exam, removes that id only, and otherwise stores nothing; missing and foreign give the same 404 |
| ExamRoutes.DeleteThenGet | server/src/routes/exams.js:199-214 | after a delete, the owner's read of that id is a 404 |
| ExamRoutes.ParsePatch | server/src/routes/exams.js:146-179 | an accepted patch sets exactly the fields present in the body |
| ExamRoutes.ParsePatchRefusals | server/src/routes/exams.js:146-179 | a refused update names the first present field that fails, in the order title, department, duration, status, questions; valid questions that cannot be cast give the 500 outcome |
| ExamRoutes.ParsePatchAcceptedIff | server/src/routes/exams.js:150-179 | a body is accepted exactly when every present field is valid: non-blank texts, a finite positive duration, "draft" or "published", acceptable questions that cast |
| ExamRoutes.ParsePatchWellFormed | server/src/routes/exams.js:150-179 | every field an accepted patch sets satisfies the exam invariant |
| ExamRoutes.ApplyKeepsInvariant | server/src/routes/exams.js:181-185 | applying a well-formed patch to a valid exam gives a valid exam |
| ExamRoutes.PatchExam | server/src/routes/exams.js:181-189 | the write happens exactly when the caller owns the exam; it stores the patched exam, keeps the invariant, and otherwise answers 404 and stores nothing |
| ExamRoutes.UpdateExam | server/src/routes/exams.js:139-194 | an invalid id gives 400; a refused body gives 400 with its message; a body that cannot be cast gives 500; an accepted body goes to the owner check and write, which answer 404 for an exam the caller does not own; a failure stores nothing |
| ExamRoutes.UpdateApplied | server/src/routes/exams.js:146-189 | a successful update is by the owner; every field the body leaves out keeps its value; a named title or department is stored trimmed, a named status as given, a named duration as its positive number and named questions as their cast; owner and creation time stay; `updatedAt` is the clock reading; the invariant is kept |
| ExamRoutes.UpdateSucceedsIff | server/src/routes/exams.js:139-194 | update succeeds exactly for a valid id, an acceptable body and an exam the caller owns |
| ExamRoutes.UpdateEmptyBody | server/src/routes/exams.js:146-189 | an empty body changes nothing but `updatedAt` |
| ExamRoutes.CreateKeepsOthers | server/src/routes/exams.js:76-83 | create leaves every other exam as it was |
| ExamRoutes.UpdateKeepsOthers | server/src/routes/exams.js:181-185 | update leaves every other exam as it was |
| ExamRoutes.DeleteKeepsOthers | server/src/routes/exams.js:206 | delete leaves every other exam as it was |
| ExamRoutes.UnknownStatusCoercedOrRefused | server/src/routes/exams.js:71-172 | for a body with a filled title and department, a positive duration and the status "archived", a successful create stores a draft, while update refuses the same body with 400 |
| ExamRoutes.UnknownStatusRejected | server/src/routes/exams.js:168-172 | update refuses any present status other than exactly "draft" or "published" with its message, once the fields checked before it are absent or acceptable |
| ExamRoutes.UpdateAcceptsShortDuration | server/src/routes/exams.js:160-166 | update stores a half-minute duration, which create's schema would refuse |
| ExamRoutes.CreatePreservesInvariant | server/src/routes/exams.js:56-90 | create keeps every stored exam valid |
| ExamRoutes.UpdatePreservesInvariant | server/src/routes/exams.js:139-194 | update keeps every stored exam valid |
| ExamRoutes.DeletePreservesInvariant | server/src/routes/exams.js:199-214 | delete keeps every stored exam valid |
| ExamRoutes.StatusFilter | server/src/routes/exams.js:101 | only exactly "draft" or "published" filters by status |
| ExamRoutes.ListedRowsMembership | server/src/routes/exams.js:99-105 | a row is listed exactly when it summarizes a listed exam under its own id |
| ExamRoutes.ListExams | server/src/routes/exams.js:95-112 | the listing holds the caller's exams that pass the filters, each once and summarized, most recently updated first |
| ExamRoutes.UnknownStatusFilterIgnored | server/src/routes/exams.js:101 | any other status value lists as if there were no status filter |
| ExamBuilder.CreateEmptyQuestion | client/src/pages/ExamCreation.jsx:26-52 | a new question has an empty prompt; multiple choice has four empty choices and index 0, true/false is true, and any other kind is narrative with an empty rubric |
| ExamBuilder.FilledChoices | client/src/pages/ExamCreation.jsx:96 | the filled choices are at most all the choices; `ExamBuilder.FilledCountOfStrings` shows the count equals the server's on the posted choices |
| ExamBuilder.EmptyQuestionIncomplete | client/src/pages/ExamCreation.jsx:85-109 | a fresh question blocks publishing, and the server would report its missing prompt |
| ExamBuilder.Encode | client/src/pages/ExamCreation.jsx:201-207 | the question sent carries its id, type, prompt and the fields of its kind |
| ExamBuilder.ExamBody | client/src/pages/ExamCreation.jsx:201-207 | the payload carries the four fields the create route reads |
| ExamBuilder.FilledCountOfStrings | client/src/pages/ExamCreation.jsx:96 | the server's filled count of the sent choices equals the page's |
| ExamBuilder.EncodedChoicesAgree | client/src/pages/ExamCreation.jsx:95-101 | the server's multiple-choice rules hold of the sent choices and index exactly when the page's do |
| ExamBuilder.EncodedQuestionAgrees | client/src/pages/ExamCreation.jsx:92-106 | the server accepts a sent question exactly when the page calls it complete |
| ExamBuilder.QuestionListAgrees | client/src/pages/ExamCreation.jsx:92-106 | the server accepts every sent question exactly when every question is complete on the page |
| ExamBuilder.PublishAgreesWithServer | client/src/pages/ExamCreation.jsx:85-109 | the page enables publishing exactly when the server's create checks accept the payload it builds |
| ExamBuilder.BodyPassesIff | client/src/pages/ExamCreation.jsx:201-207 | a body with the page's trimmed fields passes the server's checks exactly when the page calls the exam valid |
| ExamBuilder.FindIndex | client/src/pages/ExamCreation.jsx:57-58 | `findIndex` gives the first position with that id, or -1 exactly when there is none |
| ExamBuilder.InsertRemoveAt | client/src/pages/ExamCreation.jsx:62-64 | inserting an element and then removing it restores the list |
| ExamBuilder.ReorderByIds | client/src/pages/ExamCreation.jsx:54-66 | reordering keeps length and contents; it changes nothing unless both ids are given, differ and are found; otherwise the dragged question lands at the target's index and the rest keep their order |
| ExamBuilder.ReorderPositions | client/src/pages/ExamCreation.jsx:62-65 | where every question ends up after a move, position by position |
| ExamBuilder.RemoveQuestion | client/src/pages/ExamCreation.jsx:115-117 | no question with that id is left |
| ExamBuilder.RemoveQuestionCounts | client/src/pages/ExamCreation.jsx:115-117 | removing drops every question with that id and keeps every other one as often as it occurred |
| ExamBuilder.RemoveQuestionAppend | client/src/pages/ExamCreation.jsx:115-117 | removing by id distributes over concatenation, so the others keep their order |
| ExamBuilder.EditWhere | client/src/pages/ExamCreation.jsx:120 | the edit applies to exactly the questions with that id, in place |
| ExamBuilder.ApplyEdit | client/src/pages/ExamCreation.jsx:120 | a patch keeps id and kind; a prompt patch sets the prompt, and a correct-index, true/false or rubric patch on a question of its own kind sets that field, each leaving every other field as it was |
| ExamBuilder.UpdateQuestion | client/src/pages/ExamCreation.jsx:119-121 | only the matching questions change, and each keeps its id and kind |
| ExamBuilder.SetChoice | client/src/pages/ExamCreation.jsx:129-132 | setting a choice keeps id, kind, the number of choices and the correct index |
| ExamBuilder.UpdateChoice | client/src/pages/ExamCreation.jsx:123-135 | only the matching multiple-choice question changes, and only in the one slot, which takes the new value; its prompt and correct index stay |
| ExamBuilder.AppendChoice | client/src/pages/ExamCreation.jsx:142 | adding a choice keeps id and kind |
| ExamBuilder.AddChoice | client/src/pages/ExamCreation.jsx:137-145 | only the matching multiple-choice question changes, gaining one empty choice at the end |
| ExamBuilder.WithoutIndex | client/src/pages/ExamCreation.jsx:155 | filtering out an in-range index removes one choice; an out-of-range index removes none |
| ExamBuilder.DropChoice | client/src/pages/ExamCreation.jsx:147-164 | a question other than multiple choice, or one with two choices or fewer, is unchanged |
| ExamBuilder.DropChoiceFixup | client/src/pages/ExamCreation.jsx:153-161 | removing a choice removes exactly that slot and keeps at least two and the prompt; the correct index resets to 0 when its choice goes, moves down by one when an earlier choice goes, and stays when a later one goes, so an in-range index keeps naming the same slot |
| ExamBuilder.RemoveChoice | client/src/pages/ExamCreation.jsx:147-164 | only the matching question changes |
| ExamBuilder.AddQuestion | client/src/pages/ExamCreation.jsx:111-113 | a fresh question of the chosen kind is appended and the rest is unchanged |
| UserManagement.EffectiveStatus | client/src/pages/UserManagement.jsx:251 | a present status is used as it is |
| UserManagement.PasswordPolicyError | client/src/pages/UserManagement.jsx:60-64 | the page's password rule passes exactly for 8 or more characters |
| UserManagement.FullNameError | client/src/pages/UserManagement.jsx:354-360 | the name field passes exactly when the trimmed name has 2 to 80 characters |
| UserManagement.EmailError | client/src/pages/UserManagement.jsx:362-367 | the address field passes exactly when the trimmed address is valid |
| UserManagement.ConfirmError | client/src/pages/UserManagement.jsx:374-379 | the confirmation passes exactly when it is non-empty and equals the password |
| UserManagement.ApplicantBody | client/src/pages/UserManagement.jsx:443-448 | the posted body carries the name, address and password given, with role applicant |
| UserManagement.ReservedViewerIsAdmin | client/src/pages/UserManagement.jsx:180-182 | the reserved address as the viewer's e-mail makes an admin viewer |
| UserManagement.SampleAddressValid | client/src/pages/UserManagement.jsx:56-58 | "a@b.co" is valid and unchanged by trimming and lower-casing |
| UserManagement.ShortNameSlipsThrough | client/src/pages/UserManagement.jsx:381-388 | the gate as written opens for a one-character name, while the name field reports it too short |
| UserManagement.ShortNameExample | client/src/pages/UserManagement.jsx:381-388 | the administrator creating "A" with "a@b.co" and "password" passes the gate as written and not the corrected one |
| UserManagement.OneCharTrimmed | client/src/pages/UserManagement.jsx:383 | a single capital letter is its own trim |
| UserManagement.ShortNameRefusedByServer | server/src/routes/users.js:51-53 | the server refuses any name shorter than two characters that the page would send |
| UserManagement.NameFieldAccepted | client/src/pages/UserManagement.jsx:444 | a name the field accepts, once trimmed, passes the server's name check |
| UserManagement.EmailFieldAccepted | client/src/pages/UserManagement.jsx:445 | an address the field accepts, trimmed and lower-cased, passes the server's address check |
| UserManagement.CanCreateMatchesServer | client/src/pages/UserManagement.jsx:381-448 | with the corrected gate open, the server's request checks accept the page's payload exactly when the password is not all whitespace |
| UserManagement.SearchTerm | client/src/pages/UserManagement.jsx:235 | the search term is no longer than the input and has no upper-case letter |
| UserManagement.SearchIgnoresCase | client/src/pages/UserManagement.jsx:235-246 | an upper-cased and a lower-cased search find the same users |
| UserManagement.LastTouched | client/src/pages/UserManagement.jsx:259 | the default sort key is 0 only when neither timestamp is set |
| UserManagement.FilterStagesCounts | client/src/pages/UserManagement.jsx:238-252 | the three filters in turn keep exactly the users that pass all three, each as often as it occurs |
| UserManagement.Filtered | client/src/pages/UserManagement.jsx:234-263 | the listing is sorted by the chosen key and holds exactly the users the filters keep, each as often as it occurs |
| UserManagement.FilteredIsSubMultiset | client/src/pages/UserManagement.jsx:234-263 | the listing never shows a user who is not in the list, nor one more often than they occur |
| UserManagement.MissingStatusListedAsActive | client/src/pages/UserManagement.jsx:251 | a user without a status is listed under "Active" and never under "Disabled" |
| UserManagement.Summarize | client/src/pages/UserManagement.jsx:265-274 | the total is the number of users, and applicants plus admins never exceed it |
| UserManagement.CountDisjoint | client/src/pages/UserManagement.jsx:269-272 | no user counts as both applicant and admin |
| UserManagement.ApplicantCountIsDefaultListing | client/src/pages/UserManagement.jsx:238-270 | the applicant count equals the length of the default listing |
| UserManagement.NextStatus | client/src/pages/UserManagement.jsx:286 | the toggled status is "Active" or "Disabled", and differs from the current one |
| UserManagement.ToggleDisable | client/src/pages/UserManagement.jsx:285-294 | only users with the toggled key change, taking the next status and the new time; length and order are kept |
| UserManagement.SelectedAfterToggle | client/src/pages/UserManagement.jsx:302-307 | when the open panel shows that user it takes the next status and the clock reading as `updatedAt`, with every other field kept; otherwise it is unchanged |
| UserManagement.ToggleTwiceRestores | client/src/pages/UserManagement.jsx:285-294 | after two toggles every row with the user's key has the user's effective status, so a row without a status ends "Active", and every other row is unchanged |
| UserManagement.DeleteRows | client/src/pages/UserManagement.jsx:310-314 | unconfirmed, nothing changes; confirmed, every user with that key leaves and everyone else stays |
| UserManagement.SelectedAfterDelete | client/src/pages/UserManagement.jsx:317-321 | the panel closes exactly when it showed the deleted user |
| UserManagement.MockCreateApplicant | client/src/pages/UserManagement.jsx:381-429 | behind the page's own `canCreate`: with the gate closed the list is unchanged; otherwise the new applicant goes in front of the unchanged list |
| UserManagement.MockRowFitsServerShape | client/src/pages/UserManagement.jsx:381-427 | a row created behind the gate as written has a trimmed non-empty name, a normalized valid address, status Active and role applicant; its name may be one character |
| UserManagement.MockCreateApplicantCorrected | client/src/pages/UserManagement.jsx:404-429 | the same creation behind the corrected gate: the list grows by the new applicant exactly when every field error is clear |
| UserManagement.CorrectedMockRowFitsServerShape | client/src/pages/UserManagement.jsx:418-427 | behind the corrected gate the mock row has the shape the server stores, including a 2-to-80 character name |
| UserManagement.MockListsShortName | client/src/pages/UserManagement.jsx:381-429 | in mock mode the page as written lists an applicant named "A", which the server would refuse, while the corrected gate leaves the list unchanged |
| AccountForms.ContainsMatchIff | client/src/pages/AccountManagement.jsx:17-18 | the one-character pattern test holds exactly when some character matches |
| AccountForms.PasswordPolicy | client/src/pages/AccountManagement.jsx:12-21 | the policy passes exactly when the trimmed password has 8 or more characters, a letter and a digit; "required" is reported exactly for a blank password; every message is one of the four |
| AccountForms.AccountPolicyStricter | client/src/pages/AccountManagement.jsx:12-21 | whatever this page accepts, the user-management form accepts too |
| AccountForms.DigitsOnlyDiffer | client/src/pages/AccountManagement.jsx:17 | a password of eight or more digits passes the user-management form and is refused here for want of a letter |
| AccountForms.LetterlessDiffer | client/src/pages/AccountManagement.jsx:13-17 | any long enough password without whitespace or a letter passes the user-management form and is refused here for want of a letter |
| AccountForms.LetterlessPolicy | client/src/pages/AccountManagement.jsx:15-17 | a password whose trim is long enough and has no letter is refused for want of a letter |
| AccountForms.DigitsAreLetterless | client/src/pages/AccountManagement.jsx:17 | a string of digits has neither whitespace nor a letter |
| AccountForms.PaddingDiffers | client/src/pages/AccountManagement.jsx:13-16 | a short word padded with spaces passes the user-management form and is too short here |
| AccountForms.PaddedTrim | client/src/pages/AccountManagement.jsx:13 | two spaces either side of a word without whitespace trim away |
| AccountForms.PolicyMessage | client/src/pages/AccountManagement.jsx:114-131 | only the policy's own message is ever shown, and a failing policy is shown exactly when the form was submitted, the new field touched, or the confirm field touched with something typed in either field |
| AccountForms.MatchMessage | client/src/pages/AccountManagement.jsx:133-147 | no message before submit or touching the confirm field, nor when the confirmation is non-blank and agrees after trimming; otherwise it asks for the confirmation exactly when that is blank, else reports the mismatch |
| AccountForms.InlineError | client/src/pages/AccountManagement.jsx:149-152 | the policy message wins over the mismatch message, and nothing shows exactly when neither does |
| AccountForms.CanSubmitIff | client/src/pages/AccountManagement.jsx:149-167 | the button is enabled exactly when nothing is saving, the current password is non-blank, and a submitted form would show no inline error |
| AccountForms.OnUpdatePassword | client/src/pages/AccountManagement.jsx:205-236 | submitting sends exactly when the trimmed current password is non-empty, the policy passes and the trimmed new and confirm agree; it sends the trimmed passwords; it asks for the current password exactly when that is blank |
| AccountForms.SubmitAgreesWithButton | client/src/pages/AccountManagement.jsx:154-229 | pressing the button sends exactly when it would be enabled, were nothing saving |
| AccountForms.RefusalShownInline | client/src/pages/AccountManagement.jsx:213-229 | a refusal with the current password given is also shown inline once the attempt is recorded, and a policy refusal shows the same message there |
| AccountForms.OnSaveName | client/src/pages/AccountManagement.jsx:175-197 | the name is sent exactly when its trim has at least 2 characters, and it is sent trimmed; otherwise the fixed message |
| AccountForms.SaveNameStable | client/src/pages/AccountManagement.jsx:180-187 | saving the name that was sent sends it again unchanged |
| ExamBuilder.IsValid | client/src/pages/ExamCreation.jsx:85-109 | the builder's `isValid`: a non-blank title and department, a finite positive duration, and every question complete for its kind |
| ExamBuilder.QuestionComplete | client/src/pages/ExamCreation.jsx:92-106 | one question in `isValid`: a non-blank prompt; two filled choices and a correct index on a filled choice for multiple choice; a non-blank rubric for narrative |
| UserManagement.CanCreateAsWritten | client/src/pages/UserManagement.jsx:381-388 | `canCreate` as written: an admin viewer, a non-blank name, a valid trimmed address, a password the policy accepts, and a matching confirmation |
| UserManagement.IsAdminViewer | client/src/pages/UserManagement.jsx:180-182 | the viewer is the administrator when their e-mail, lower-cased, is the reserved address |
| UserManagement.Kept | client/src/pages/UserManagement.jsx:238-252 | a user stays in the listing when the role filter, the search and the status filter all let them through |
| UserManagement.ParseSort | client/src/pages/UserManagement.jsx:254-260 | "name_asc" and "created_desc" pick their orders and any other value sorts by last update |
| AccountForms.CanSubmitPassword | client/src/pages/AccountManagement.jsx:154-167 | the change-password button needs no save under way, non-blank current, new and confirmation fields, a new password the policy accepts, and trimmed new and confirmation equal |
| AccountForms.ShowErrors | client/src/pages/AccountManagement.jsx:110-112 | inline errors show once the button was pressed or either new-password field was touched |
| Emails.IsValidEmail | server/src/routes/auth.js:9-11 | the address pattern: no whitespace, one `@` with text on both sides, and a dot with text on both sides after it |
| Emails.IsProtectedAdminEmail | server/src/routes/users.js:21-23 | an address is protected when its normalized form is the reserved administrator address |
| UserSchema.UserSchemaOk | server/src/models/User.js:3-13 | a stored user has a trimmed 2-to-80 character name, a non-empty trimmed lower-case e-mail and a password hash |
| QuestionValidator.CheckQuestion | server/src/routes/exams.js:16-46 | the checks of one question in the route's order: object, type, prompt, the rules of its kind, then an unknown type |
| QuestionValidator.CheckMultipleChoice | server/src/routes/exams.js:22-33 | a multiple-choice question needs a choices array with two filled entries, a numeric correct index within the array, and a filled entry at that index |
| ExamRoutes.Apply | server/src/routes/exams.js:181-185 | `$set` of the patch: each field the patch names replaces the stored one, the rest are kept, and `updatedAt` is stamped |
| ExamRoutes.Owned | server/src/routes/exams.js:181-185 | an exam is the caller's when it exists and its `createdBy` is the caller |
| ExamRoutes.DepartmentFilter | server/src/routes/exams.js:100 | a department query filters only when it is a non-blank string, and then by its trimmed value |
| ExamRoutes.Listed | server/src/routes/exams.js:99-101 | a listing returns the caller's exams that match the department and status filters when those are given |

## Left out

- Persistence: Mongoose queries, indexes and timestamps are replaced by a map and abstract clock readings. A failing query or write is not modelled, apart from the schema failures that reach the route's `catch` as a 500.
- bcrypt hashing and comparison, and JWT signing and verification, are parameters of the model. Login and registration answer with the user instead of a token.
- `requireAdmin` is imported by `server/src/routes/users.js:5`, but `server/src/middleware/auth.js` does not export it, and `server/src/index.js` mounts only the account routes. The user routes therefore take no caller, and who may call them is not modelled.
- JavaScript's `Number()` is a parameter (`Value -> NumberValue`); floating-point rounding is not modelled, and durations are reals.
- Lower-casing covers the ASCII letters only; Unicode case mapping is not modelled. String lengths count characters, not UTF-16 code units.
- `mongoose.isValidObjectId` is modelled as "24 hexadecimal digits or any 12-character string"; ids are compared as exact strings.
- Mongoose's own conversions are not modelled: it would turn a number or boolean into text, a numeric string into a number, strings such as "true" or "yes" into a boolean, and wrap a lone value into an array. The model treats every field of the wrong JSON type as a cast failure (500).
- ExamSchema.CastQuestion: stores only the fields of the question's own kind. Mongoose also stores another kind's fields when they are present and cast; no route's decision reads them.
- Mongoose's `findOneAndUpdate` runs no validators by default, so update checks no length limits or minimum duration, and the model does the same. `updatedAt` is stamped on every successful update, including one that changes nothing.
- The `localeCompare` collation of the name sort is a parameter (`string -> int`), turned into a descending key.
- `generateTempPassword`, `crypto.randomUUID` and `Date.now()` are parameters or left out.
- Client I/O (`apiGet`, `apiPost`, `apiPatch`, `me`, `refreshMe`), token storage, and the exam builder's localStorage draft save, load and clear are left out.
- The drag-and-drop handlers are left out; only `reorderByIds` is modelled.
- `publishExam` only logs its payload and sends nothing. The model builds the same payload and relates it to the create route's checks, as if it were posted.
- ExamBuilder.SetChoice: an index outside the choices is not modelled; JavaScript would grow the array.
- ExamBuilder.ApplyEdit: a patch naming a field the question's kind lacks leaves the question unchanged; JavaScript would add the field.
- The account page calls `/api/auth/profile` and `/api/auth/password`, which the account routes do not define. Only the checks made before each request are modelled.
- `pwTouchedCurrent` is set and reset but never read, so it is left out.
- UserManagement.Row: a missing text field is the empty string and a missing timestamp is 0, which is how the page's `|| ""` and `|| 0` read them.
- UserManagement.Filtered: the sort is the model's stable descending insertion sort; JavaScript's `sort` is also stable.
- UserManagement.Filtered: only numeric timestamps, as the mock data has, are modelled. In API mode the rows carry ISO date strings, the page's date comparators compute NaN, and the order is left as the engine's sort makes it.

## Findings

| source | as written | input that shows it | evidently intended | confidence | as-written member | corrected member |
|---|---|---|---|---|---|---|
| client/src/pages/UserManagement.jsx:381-388 | `canCreate` only checks that the trimmed name is non-empty. The name field's own error and the server both require at least 2 characters. | administrator viewer, name "A", e-mail "a@b.co", password and confirmation "password" | the submit gate applies the same 2-to-80 name rule as `fullNameErr`, so the form does not submit a name that the server refuses with 400 | medium, not executed | UserManagement.ShortNameExample | UserManagement.CanCreateMatchesServer |
