# Online examination system: a Dafny model of its grading and form logic

This project models the exam application's logic: teachers author exams and questions, and students take timed quizzes whose answers are graded on submission. Six parts of the application are modelled:

- **Grading** (`grading.dfy`). This is the result-submission endpoint. It validates the exam id, finds the exam and its questions, and scores every question. Each question earns all or none of its marks, and descriptive questions are never auto-scored. The endpoint then sums the earned and possible marks and computes the percentage and the pass flag (50 %).
- **Question endpoints** (`question_routes.dfy`). Create normalises a request body into a question document. Update overwrites a loaded document in place. Multiple-choice options become texts plus a correct index. True/false questions get the fixed options `True`, `False` and a stored index. Descriptive questions get a placeholder option.
- **Quiz page** (`student_quiz.dfy`). This is the student's session: start-up, the question cursor with Previous/Next/Submit, the answer dictionary, the countdown with its `mm:ss` display, the warning style and the auto-submit, and the answers payload sent for grading.
- **Question form** (`manage_questions.dfy`). `saveQuestion` validates the form in a fixed order, collects the non-blank options with their correct flags, and builds the request body and target (create or update).
- **Exam page** (`manage_exam.dfy`). This covers:
  - the base64url-to-base64 mapping of the login token's payload segment;
  - the choice of teacher id;
  - the exam form's validation and payload;
  - the dialog's create/edit mode;
  - the title search over the exam cards.
- **Exam list** (`student_exams.dfy`). This covers each card's exam id, its status badge, whether the exam can be started, and the search filter.

`js_core.dfy` holds the JavaScript semantics the code relies on:

- truthiness and `String(n)`;
- `trim` and ASCII `toLowerCase`;
- `includes` and `padStart(2, '0')`;
- one-argument `parseInt`, which skips leading whitespace, takes a sign and a `0x` prefix, reads the longest digit prefix, and returns NaN as `None`.

`question_flow.dfy` follows a question from the teacher's form through the endpoints and the quiz page to the grading endpoint. The stages disagree in two ways, and the model keeps both behaviours exactly as the code has them:

- **True/false encoding.** Create and update store index 0 for a `true` answer and 1 for `false`. The grading endpoint expects 1 only when the stored value is `true` or `'true'`, so it always expects 0 for a stored index. The quiz page stores True as index 0 and False as index 1.
- **Index-0 answers are dropped.** The quiz page sends `userAnswers[id] || null`, so an answer stored as index 0 reaches the grading endpoint as `null`.

As a result, a true/false question authored through the form is never marked correct through the quiz (`QuestionFlow.QuizTrueFalseNeverCorrect`), and an exam made only of such questions always fails (`QuestionFlow.TrueFalseExamAlwaysFails`). A multiple-choice question is marked correct exactly when the student picks the stored index and that index is not 0 (`QuestionFlow.QuizMultipleChoiceOutcome`).

Three behaviours of the code are easy to misread:

- A stored true/false answer maps to index 1 only when it is exactly `true` or the string `'true'`, not when it is merely truthy.
- The pass flag is computed on the unrounded percentage, before rounding.
- The `0 <= percentage <= 100` bound holds only when no question has negative marks. The endpoints do not enforce that.

## Model

| member | source | states |
|---|---|---|
| JsCore.Trim | shared/manage-questions.js:147 | The result is the input without leading and trailing JavaScript whitespace. It is empty exactly when the input is all whitespace, and otherwise it starts and ends with non-whitespace. |
| JsCore.ToLower | shared/student-exams.js:103 | Each character is mapped to its lower-case form and the length is kept. |
| JsCore.NatToString | shared/student-quiz.js:230 | `String(n)` for n >= 0: decimal digits, a leading `0` only for 0 itself, and one character exactly when n < 10. |
| JsCore.IntToStringShape | routes/resultRoutes.js:59 | `String(i)`: a minus sign exactly for a negative value, then decimal digits; a single character exactly for 0 to 9. |
| JsCore.Pad2Shape | shared/student-quiz.js:230 | `padStart(2, '0')`: at least two characters. A single digit gets a leading `0`, and anything else is left as `String(n)`. |
| JsCore.Includes | shared/student-exams.js:103 | `s.includes(t)`: some position of `s` starts a copy of `t`. Its properties are the next three rows. |
| JsCore.IncludesEmpty | shared/student-exams.js:103 | Every string includes the empty string, so an empty search matches everything. |
| JsCore.IncludesToLower | shared/student-exams.js:103 | Containment survives lower-casing both sides. |
| JsCore.ToLowerIdempotent | shared/student-exams.js:103 | Lower-casing twice is lower-casing once. |
| JsCore.ParseInt | routes/resultRoutes.js:59 | `parseInt(s)`: a string with no decimal digit parses to NaN (`None`). |
| JsCore.ParseIntOfIntToString | routes/resultRoutes.js:59 | Any integer answer the quiz page sends reads back as itself: `parseInt(String(i)) == i`. |
| JsCore.ParseIntOfNonNegative | routes/resultRoutes.js:59 | `parseInt(String(n)) == n` for every non-negative n. |
| JsCore.ParseIntOfNegative | routes/resultRoutes.js:59 | `parseInt("-" + String(m)) == -m`. |
| JsCore.ParseIntOfMinus | routes/resultRoutes.js:59 | A leading minus sign negates whatever the digits after it parse to, and NaN stays NaN. |
| JsCore.ParseUnsignedOfNatToString | routes/resultRoutes.js:59 | The decimal text of n, read as digits, has the value n. |
| JsCore.Pad2Length | shared/student-quiz.js:230 | `padStart(2, '0')` yields at least two characters, and exactly two below 100. |
| JsCore.ParseIntOfNonNumbers | routes/resultRoutes.js:59 | `parseInt` of `null`, `undefined` or a boolean is NaN, so such an answer equals no expected index. |
| JsCore.ParseIntOfPad2 | shared/student-quiz.js:230 | A zero-padded two-digit field, followed by anything that is not a digit or letter, parses back to its number. |
| Grading.QuestionMarks | routes/resultRoutes.js:54 | Marks of 0 become exactly 1 and non-zero marks are kept, so non-negative marks give at least 1. |
| Grading.FindIndex | routes/resultRoutes.js:52 | The position of the first submitted answer whose question id matches; earlier entries do not match. |
| Grading.FindAnswer | routes/resultRoutes.js:52 | `Array.find`: no answer is found exactly when no entry carries the question's id. A found answer is the first entry that carries it: every earlier entry carries another id. |
| Grading.ScoreQuestion | routes/resultRoutes.js:52-78 | One question earns all of its marks (1 when they are 0) or nothing, and earns them only when `isCorrect` is truthy and the question is multiple choice or true/false. |
| Grading.ScoreQuestionMeaning | routes/resultRoutes.js:52-78 | Marks are all or nothing. Descriptive and unknown types never score. A missing or non-numeric answer is incorrect and is recorded as null or as sent. The recorded `isCorrect` is `undefined` exactly for a multiple-choice or true/false question that no entry answers, and a boolean otherwise. Multiple choice is correct iff the answer parses to the stored number. True/false is correct iff it parses to the expected index. |
| Grading.ExpectedTrueFalseIndexMeaning | routes/resultRoutes.js:63 | The expected true/false index is 0 or 1, and it is 1 exactly for a stored `true` or `'true'`. |
| Grading.ScoreQuestions | routes/resultRoutes.js:46-79 | The loop's scored answers, score and total equal the per-question specification summed over all questions, in order. |
| Grading.Grade | routes/resultRoutes.js:15-93 | The handler checks an invalid id, then a missing exam, then an empty question list, in that order. Otherwise it returns the graded result: scored answers, score, total, question count, percentage and pass flag. |
| Grading.ScoreAllShape | routes/resultRoutes.js:71-78 | There is one scored answer per question, in question order: position i holds question i's own record, so it carries that question's id, type and marks. |
| Grading.GradeSpec | routes/resultRoutes.js:15-93 | The result counts every question. A pass needs a non-zero score, and the percentage is a number exactly when the total is not zero. |
| Grading.ZeroScoreFails | routes/resultRoutes.js:81-82 | A score of 0 never passes, whatever the total: the percentage is 0, or NaN for a zero total. |
| Grading.TotalMarksIgnoresAnswers | routes/resultRoutes.js:54-55 | The total counts every question whatever the answers, and is at least the question count when marks are non-negative. |
| Grading.ScoreWithinTotal | routes/resultRoutes.js:47-65 | With non-negative marks, `0 <= score <= totalMarks`. |
| Grading.ScoreIsSumOfEarned | routes/resultRoutes.js:60-77 | The score equals the sum of the recorded `earnedMarks`. |
| Grading.DescriptiveNeverScores | routes/resultRoutes.js:66-69 | An exam of descriptive questions scores 0 whatever the answers. |
| Grading.PassedIffHalf | routes/resultRoutes.js:81-82 | For a positive total, the result passes iff `score * 100 >= 50 * totalMarks`, with 50 % included. For a score within the total, the percentage lies in [0, 100]. |
| Grading.GradeSpecBounds | routes/resultRoutes.js:81-91 | With non-negative marks a graded result has `0 <= score <= total`, a total of at least 1, one scored answer and one counted question per question, and a finite percentage in [0, 100]. It passes iff `2 * score >= total`. |
| QuestionRoutes.OptionTexts | routes/questionRoutes.js:90-92 | The option texts are element-by-element: a string option as is, an object option's `text`. |
| QuestionRoutes.FirstMarkedCorrect | routes/questionRoutes.js:97 | `findIndex`: the first option flagged correct, with no earlier one flagged, or "none". |
| QuestionRoutes.MultipleChoiceFields | routes/questionRoutes.js:81-101 | Shared by create and update (also lines 153-168). It is rejected exactly for missing or fewer than two options. Otherwise the stored texts are the options' texts, element by element. With object options the index is the first option flagged correct, or 0 when none is. With string options it is `correctAnswer || 0`. |
| QuestionRoutes.TrueFalseFields | routes/questionRoutes.js:102-104 | The options are `True` and `False`. Index 0 is stored exactly for an input `true` or `'true'`, and 1 for anything else. |
| QuestionRoutes.MarksOrDefault | routes/questionRoutes.js:77 | The marks or 1: never 0, a non-zero input is kept, and a missing or zero input becomes 1. |
| QuestionRoutes.CreateQuestion | routes/questionRoutes.js:51-116 | A document is created only for a body with text, type and exam id, and for an exam that exists. It gets the new id and non-zero marks. A multiple-choice document has at least two options. |
| QuestionRoutes.CreateValidation | routes/questionRoutes.js:53-78 | Missing text, type or exam id is rejected first, then an unknown exam. A created question keeps the body's text, type and exam id and has the body's marks, or 1 when they are absent or 0. |
| QuestionRoutes.CreateMultipleChoice | routes/questionRoutes.js:81-101 | Fewer than two options are rejected. Stored texts map the inputs one to one. With object options the stored index is the first flagged option, or 0 when none is flagged, and it always indexes a stored option. With string options it is the body's `correctAnswer` when truthy, else 0. |
| QuestionRoutes.CreateFixedEncodings | routes/questionRoutes.js:102-108 | True/false gets `['True','False']` with 0 iff the input is `true`/`'true'`, and 1 otherwise. Descriptive gets `['Descriptive Answer']` with 0. |
| QuestionRoutes.QuestionDocument.Update | routes/questionRoutes.js:144-172 | Text, type and marks are overwritten only by truthy values. A multiple-choice body with too few options is rejected and leaves options and answer unchanged. Multiple-choice and true/false bodies set options and answer as on create. Any other type leaves them unchanged. The saved document is the new state. |
| StudentQuiz.JsRem | shared/student-quiz.js:227 | JavaScript's `%`: the dividend minus the divisor times the quotient truncated toward zero. So the remainder has the sign of the dividend and a magnitude below the divisor, and it is the mathematical remainder for a non-negative dividend. |
| StudentQuiz.TimerText | shared/student-quiz.js:226-230 | Whatever the count, negative included, the `mm:ss` text has at least five characters: both padded fields have two or more. |
| StudentQuiz.TimerTextReadsBack | shared/student-quiz.js:226-230 | The `mm:ss` text reads back: the field after the colon parses to the seconds and the part before it to the minutes. It is exactly five characters below 100 minutes. |
| StudentQuiz.Remaining | shared/student-quiz.js:212-213 | `Math.max(0, duration - elapsed)`: the duration minus the elapsed time while time is left, and 0 exactly when the elapsed time reaches the duration. |
| StudentQuiz.SubmittedValue | shared/student-quiz.js:260 | A truthy stored answer is sent as is, and anything else, including index 0, as null. |
| StudentQuiz.SubmissionAnswers | shared/student-quiz.js:258-262 | There is one payload entry per question, in order, with the question's id and type and the stored answer, or null when it is falsy. |
| StudentQuiz.FalsyAnswersSubmittedAsNull | shared/student-quiz.js:260 | An index-0, empty, false or missing answer reaches the grading endpoint as null. |
| StudentQuiz.QuizSession.Initialize | shared/student-quiz.js:12-63 | Errors come in the page's order: no exam id, no token, exam not loaded, questions not loaded, no questions. The duration in seconds is stored before the question checks. A successful start leaves the cursor on question 0 and the timer style set below 300 s. |
| StudentQuiz.QuizSession.ShowQuestion | shared/student-quiz.js:76-77 | The cursor moves to the given loaded question. |
| StudentQuiz.QuizSession.SaveAnswer | shared/student-quiz.js:170-173 | The answer dictionary gains or overwrites exactly one entry. |
| StudentQuiz.QuizSession.NextQuestion | shared/student-quiz.js:176-181 | The cursor advances by one unless it is on the last question, and stays on a loaded question. |
| StudentQuiz.QuizSession.PreviousQuestion | shared/student-quiz.js:184-189 | The cursor retreats by one unless it is on the first question, and stays on a loaded question. |
| StudentQuiz.QuizSession.Buttons | shared/student-quiz.js:192-206 | Prev shows iff past the first question. Exactly one of Next and Submit shows, and Submit shows iff on the last question or beyond. |
| StudentQuiz.QuizSession.ShowTime | shared/student-quiz.js:225-236 | The display shows the `mm:ss` text, and the warning style is added below 300 s and never removed. |
| StudentQuiz.QuizSession.TimerTick | shared/student-quiz.js:211-220 | A tick shows the remaining time, warns below 300 s, and auto-submits exactly when the elapsed time reaches the duration. |
| StudentQuiz.Navigate | shared/student-quiz.js:175-206 | Any sequence of Next/Previous presses keeps the cursor on a loaded question, and Submit then shows exactly on the last one. |
| ManageQuestions.FormMarks | shared/manage-questions.js:149 | A parsed non-zero number is kept, and NaN or 0 becomes 1. |
| ManageQuestions.KeptPositions | shared/manage-questions.js:190-191 | Every kept position is a box whose trimmed text is not empty. |
| ManageQuestions.PositionsBelowIncreasing | shared/manage-questions.js:190 | The boxes are visited in page order, so the kept positions strictly increase. |
| ManageQuestions.PositionsBelowComplete | shared/manage-questions.js:190-191 | No box that passes the test is skipped. |
| ManageQuestions.KeptPositionsMeaning | shared/manage-questions.js:190-191 | The kept positions are exactly the boxes with non-blank trimmed text, strictly increasing. |
| ManageQuestions.KeptStep | shared/manage-questions.js:190-197 | One turn of the loop over box i appends that box's option exactly when its trimmed text is not empty, and otherwise leaves the list unchanged. |
| ManageQuestions.KeptOptionAt | shared/manage-questions.js:192-195 | Option j is built from the j-th kept box: its trimmed text, and a flag that is set exactly when that box's radio is checked. |
| ManageQuestions.CollectOptions | shared/manage-questions.js:186-197 | The loop's options are one object per non-blank box, in page order, with trimmed text and correct flag. |
| ManageQuestions.KeptOptionsMeaning | shared/manage-questions.js:186-197 | Collected options have non-empty text and at most one is flagged correct. One is flagged iff the checked radio's box is non-blank. With no radio checked every flag is null. |
| ManageQuestions.SaveQuestion | shared/manage-questions.js:136-221 | Checks run in order: elements missing, text or type missing, marks outside 1..100, exam id missing, fewer than two options, true/false unanswered. The body carries trimmed text, type, marks and exam id, with options only for multiple choice and `value === 'true'` only for true/false. The request is a PUT for the question being edited and a POST otherwise. |
| ManageExam.PayloadSegmentExists | shared/manage-exam.js:7 | `split('.')[1]` yields a segment exactly when there is a token containing a dot. |
| ManageExam.PayloadSegmentPlacement | shared/manage-exam.js:7 | The segment has no dot, starts right after the token's first dot, and runs to the next dot or the end. |
| ManageExam.PayloadSegment | shared/manage-exam.js:7 | `split('.')[1]`: a segment is found only in a token, it is shorter than the token, and it contains no dot. |
| ManageExam.Base64UrlToBase64 | shared/manage-exam.js:8 | Each `-` becomes `+`, each `_` becomes `/`, and the length is kept. |
| ManageExam.Base64UrlRoundTrip | shared/manage-exam.js:8 | No `-` or `_` remains and other characters are untouched. On base64url text the inverse mapping restores the input, and the mapping restores any text without `-` and `_` from its inverse. |
| ManageExam.DecodeToken | shared/manage-exam.js:5-17 | A token without a payload segment decodes to null. Otherwise the result is the decoder's result on the mapped segment, and a decoder failure gives null. |
| ManageExam.CurrentTeacherId | shared/manage-exam.js:20 | The id is `teacherId` when truthy, else `userId`, and undefined without a token. It is truthy iff either claim is. |
| ManageExam.SaveExamOutcome | shared/manage-exam.js:145-171 | A missing title or status, or a NaN or 0 duration, gives "required fields". Only a negative duration gives "greater than 0". A missing teacher id comes next. The payload is exactly the trimmed title, parsed duration, status, description and teacher id, sent by PUT iff an exam is being edited. |
| ManageExam.SaveExamDuration | shared/manage-exam.js:146-153 | A typed decimal duration reaches the payload as that number, and `0` is treated as a missing field. |
| ManageExam.SaveExam | shared/manage-exam.js:144-171 | A request is built only with a non-empty title, a positive duration and a truthy teacher id. It creates an exam exactly when no exam is being edited. |
| ManageExam.ExamEditor.BeginCreate | shared/manage-exam.js:127-128 | Opening the dialog for a new exam clears the edited id. |
| ManageExam.ExamEditor.BeginEdit | shared/manage-exam.js:287-307 | The edited id is set iff the id is non-empty and the exam was fetched. Otherwise the mode is unchanged. |
| ManageExam.ExamEditor.Save | shared/manage-exam.js:144-214 | The request is the form's outcome for the current mode. A successful save returns the dialog to create mode, and a failed one keeps the mode. |
| ManageExam.CardVisible | shared/manage-exam.js:324-330 | A card is shown when its lower-cased title contains the lower-cased search text. |
| ManageExam.CardVisibility | shared/manage-exam.js:324-330 | An empty search shows every card, a title containing the search text as typed is shown, and visibility ignores ASCII letter case on both sides. |
| StudentExams.ExamId | shared/student-exams.js:47 | `_id` takes precedence when truthy, else `id`. The id is usable (truthy) exactly when one of the two is. |
| StudentExams.StatusBadge | shared/student-exams.js:52-59 | Active iff `'active'`, Draft iff `'draft'`, Inactive for every other status. |
| StudentExams.ExamCard | shared/student-exams.js:45-89 | A card wears the status badge. Its start button is enabled exactly when the exam can be taken, is labelled "Start Exam" or "Not Available" accordingly, and leads to the quiz page for the exam's id. |
| StudentExams.DisplayExams | shared/student-exams.js:32-92 | An empty list shows the "no exams" message; otherwise there is one card per exam, in list order. |
| StudentExams.CardsStartTheirOwnExam | shared/student-exams.js:47-98 | Each shown card starts its own exam, and only an active one. The link carries the exam's `_id` when that is a non-empty string, and reads `undefined` when both ids are missing. |
| StudentExams.CanTake | shared/student-exams.js:62 | The start button is enabled only for the status `'active'`, compared exactly. |
| StudentExams.CanTakeIffActiveBadge | shared/student-exams.js:52-62 | An exam can be started iff its badge is Active, that is iff its status is exactly `'active'`. |
| StudentExams.SearchExams | shared/student-exams.js:102-108 | An exam is listed iff its lower-cased title, or its present description lower-cased, contains the lower-cased term. Each listed exam appears as many times as in the loaded list, and a non-matching one not at all. |
| StudentExams.FilterIsSubsequence | shared/student-exams.js:104 | The filtered list is the loaded list with some exams dropped, order kept. |
| StudentExams.SearchExamsMeaning | shared/student-exams.js:102-108 | The result is an order-keeping sublist. Any exam whose title contains the typed text is listed, and the empty search lists every exam. |
| QuestionFlow.FormMultipleChoiceStoresCheckedOption | routes/questionRoutes.js:96-98 | For a form-built multiple-choice body the stored index names the option the teacher checked. If the checked box is blank or none is checked, it is 0. |
| QuestionFlow.FormTrueFalseStoresInvertedIndex | routes/questionRoutes.js:104 | A form answer True is stored as 0 and False as 1, on create and on update, so the grading endpoint's expected index is 0. |
| QuestionFlow.PayloadLookup | routes/resultRoutes.js:52 | The grading endpoint finds, for every quiz question, an entry whose answer is the page's stored answer, or null when that is falsy. |
| QuestionFlow.ParsedQuizIndex | routes/resultRoutes.js:59 | A quiz answer stored as index k parses to k, except index 0, which is sent as null and parses to NaN. |
| QuestionFlow.QuizMultipleChoiceOutcome | routes/resultRoutes.js:57-60 | A multiple-choice question answered on the quiz page is correct iff the student picked the stored index and that index is not 0. |
| QuestionFlow.QuizTrueFalseNeverCorrect | routes/resultRoutes.js:61-65 | A true/false question stored as 0 or 1 is never correct through the quiz page. |
| QuestionFlow.NoneCorrectScoresZero | routes/resultRoutes.js:57-69 | With no question correct, the score is 0. |
| QuestionFlow.TrueFalseExamAlwaysFails | routes/resultRoutes.js:81-82 | An exam of form-authored true/false questions scores 0 and fails for every quiz submission. |

## Left out

- Every `fetch`, the Express routing and authentication middleware, and the document mapper's queries and saves are not modelled. Lookups are parameters: the exam-found flag, the loaded question list, the saved id and the server's success flag. The GET, DELETE and result-listing endpoints are not part of this model.
- `ObjectId.isValid` is a parameter of `Grading.Grade`. The Result document's ObjectId casts, student id and timestamps are not modelled.
- The scored answer's `isCorrect` keeps the handler's own value, `undefined` included. The Result schema declares the field as a Boolean, so the saved document leaves it out in that case. The schema cast itself is not modelled.
- `Math.round(percentage * 100) / 100` is not modelled: floating point. The percentage is the exact rational, with NaN and ±Infinity for a zero total. The pass flag is computed before rounding, as in the code.
- Numbers are integers throughout, exact and unbounded. Fractional marks, durations and answers, and the `parseInt` radix argument, are not modelled. Neither are the precision limit of doubles (above 2^53) and the exponent form `String` gives numbers from 1e21 up, so `JsCore.ParseIntOfIntToString` holds for the model's integers only.
- `JsCore.ToLower`: only ASCII letters are lower-cased, because Unicode case mapping is not modelled.
- `atob`, the percent-decoding and `JSON.parse` inside `decodeToken` are one decoder parameter of `ManageExam.DecodeToken`. Only the character mapping and the segment extraction are modelled.
- The request body's values are modelled as already typed, for example text and type as strings and marks as an integer. Casts and validation in the document mapper's schema are not modelled. Options are strings or `{text, isCorrect}` objects; other JSON shapes are not modelled.
- The radio button `value` of option box i is the decimal text of i. `ManageQuestions.QuestionForm` therefore carries the checked box's position, and `==` between it and the box index is position equality.
- `StudentQuiz.QuizSession.TimerTick`: the elapsed seconds are a natural-number parameter. The clock, `setInterval` and a clock going backwards are not modelled.
- `StudentExams.ExamCard` models only the badge, the start button and its link. The title, description, duration, question count and date text of a card are not modelled, and neither is the quoting of the id inside the `onclick` attribute.
- DOM rendering, alerts, confirmations, success and error messages, and page navigation are not modelled. Errors are datatype values named after their messages. The answer highlighting in the quiz is not modelled.
- `StudentQuiz.QuizSession.Initialize` takes the exam's duration and the question list as already loaded. The asynchronous ordering of the two requests is not modelled.
