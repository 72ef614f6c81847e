/**
 * What happens to a question on its way from the teacher's form, through the
 * question endpoints and the student's quiz page, to the grading endpoint.
 * The stages disagree on how true/false answers are encoded, and the quiz
 * page drops every answer stored as index 0; the lemmas here state the
 * consequences for the score.
 */
module QuestionFlow {
  import opened JsCore
  import opened Grading
  import opened QuestionRoutes
  import opened StudentQuiz
  import opened ManageQuestions

  // ---------------------------------------------------------------------------
  // From the form to the stored question

  /**
   * A multiple-choice question saved from the form is stored with the
   * correct index pointing at the option the teacher checked, counted among
   * the non-blank boxes; when the checked box is blank, or none is checked,
   * index 0 is stored.
   */
  lemma FormMultipleChoiceStoresCheckedOption(
    body: QuestionBody, examFound: bool, newId: string, inputs: seq<string>, checked: Option<nat>)
    requires Present(body.text) && Present(body.examId) && examFound
    requires body.qtype == Some(MultipleChoice)
    requires body.options == Some(KeptOptions(inputs, checked)) && |KeptOptions(inputs, checked)| >= 2
    ensures var r := CreateQuestion(body, examFound, newId);
      && r.Ok? && r.value.correctAnswer.JsNum?
      && 0 <= r.value.correctAnswer.n < |r.value.options|
      && (checked.Some? && checked.value < |inputs| && NonBlank(inputs[checked.value]) ==>
            r.value.options[r.value.correctAnswer.n] == Trim(inputs[checked.value]))
      && (!(checked.Some? && checked.value < |inputs| && NonBlank(inputs[checked.value])) ==>
            r.value.correctAnswer == JsNum(0))
  {
    var opts := KeptOptions(inputs, checked);
    var ps := KeptPositions(inputs);
    KeptOptionsMeaning(inputs, checked);
    CreateMultipleChoice(body, examFound, newId);
    var r := CreateQuestion(body, examFound, newId);
    var n := r.value.correctAnswer.n;
    if checked.Some? && checked.value < |inputs| && NonBlank(inputs[checked.value]) {
      var j :| 0 <= j < |opts| && MarkedCorrect(opts[j]);
      assert opts[n] == OptObject(Trim(inputs[ps[n]]), CorrectFlag(checked, ps[n]));
    } else {
      assert forall i | 0 <= i < |opts| :: !MarkedCorrect(opts[i]);
    }
  }

  /**
   * A true/false question saved from the form, on create or on update,
   * is stored as index 0 when the teacher picked True and as index 1 when
   * they picked False.
   */
  lemma FormTrueFalseStoresInvertedIndex(body: QuestionBody, examFound: bool, newId: string, pickedTrue: bool)
    requires Present(body.text) && Present(body.examId) && examFound
    requires body.qtype == Some(TrueFalse) && body.correctAnswer == JsBool(pickedTrue)
    ensures CreateQuestion(body, examFound, newId).Ok?
    ensures CreateQuestion(body, examFound, newId).value.correctAnswer == JsNum(if pickedTrue then 0 else 1)
    ensures TrueFalseFields(body.correctAnswer).correctAnswer == JsNum(if pickedTrue then 0 else 1)
    ensures ExpectedTrueFalseIndex(CreateQuestion(body, examFound, newId).value.correctAnswer) == 0
  {
    CreateFixedEncodings(body, examFound, newId);
  }

  // ---------------------------------------------------------------------------
  // From the quiz page to the grading endpoint

  /**
   * The grading endpoint finds, for every question of the quiz, the entry the quiz
   * page made for it, and reads the answer the page stored for that
   * question after `|| null`.
   */
  lemma {:induction false} PayloadLookup(qs: seq<Question>, answers: map<string, JsValue>, q: Question)
    requires q in qs
    ensures var found := FindAnswer(SubmissionAnswers(qs, answers), q.id);
      found.Some? && found.value.userAnswer == SubmittedValue(answers, q.id)
  {
    var p := SubmissionAnswers(qs, answers);
    var i :| 0 <= i < |qs| && qs[i] == q;
    assert p[i] in p && p[i].questionId == q.id;
    var found := FindAnswer(p, q.id);
    var k :| 0 <= k < |p| && p[k] == found.value;
  }

  /** The number the grading endpoint parses from a quiz answer that the page stored as option index `k`. */
  lemma ParsedQuizIndex(answers: map<string, JsValue>, id: string, k: nat)
    requires id in answers && answers[id] == JsNum(k)
    ensures ParseIntValue(SubmittedValue(answers, id)) == if k == 0 then None else Some(k)
  {
    if k == 0 {
      ParseIntOfNonNumbers(JsNull);
    } else {
      ParseIntOfIntToString(k);
    }
  }

  /** The quiz page stores the answer to an auto-graded question, if any, as a non-negative option index. */
  predicate QuizIndexAnswer(answers: map<string, JsValue>, id: string)
  {
    id in answers ==> answers[id].JsNum? && answers[id].n >= 0
  }

  /**
   * A multiple-choice question answered on the quiz page is marked correct
   * exactly when the student picked the stored index and that index is not
   * 0: an index-0 answer is sent as null, so a question whose first option
   * is the correct one can never be answered correctly.
   */
  lemma QuizMultipleChoiceOutcome(qs: seq<Question>, answers: map<string, JsValue>, q: Question, c: nat)
    requires q in qs && q.qtype == MultipleChoice && q.correctAnswer == JsNum(c)
    requires QuizIndexAnswer(answers, q.id)
    ensures Truthy(ScoreQuestion(q, SubmissionAnswers(qs, answers)).isCorrect) <==>
              q.id in answers && answers[q.id] == JsNum(c) && c != 0
  {
    PayloadLookup(qs, answers, q);
    ScoreQuestionMeaning(q, SubmissionAnswers(qs, answers));
    if q.id in answers {
      ParsedQuizIndex(answers, q.id, answers[q.id].n);
    } else {
      ParseIntOfNonNumbers(JsNull);
    }
  }

  /**
   * A true/false question stored by the question endpoints (index 0 or 1)
   * is never marked correct through the quiz page: the grading endpoint expects 0,
   * the True button's 0 is sent as null and the False button's 1 is not 0.
   */
  lemma QuizTrueFalseNeverCorrect(qs: seq<Question>, answers: map<string, JsValue>, q: Question)
    requires q in qs && q.qtype == TrueFalse && q.correctAnswer in {JsNum(0), JsNum(1)}
    requires QuizIndexAnswer(answers, q.id)
    ensures !Truthy(ScoreQuestion(q, SubmissionAnswers(qs, answers)).isCorrect)
  {
    PayloadLookup(qs, answers, q);
    ScoreQuestionMeaning(q, SubmissionAnswers(qs, answers));
    if q.id in answers {
      ParsedQuizIndex(answers, q.id, answers[q.id].n);
    } else {
      ParseIntOfNonNumbers(JsNull);
    }
  }

  /** No question marked correct, no marks earned. */
  lemma {:induction false} NoneCorrectScoresZero(qs: seq<Question>, answers: seq<SubmittedAnswer>)
    requires forall q | q in qs :: !Truthy(ScoreQuestion(q, answers).isCorrect)
    ensures Score(qs, answers) == 0
  {
    if |qs| > 0 {
      assert forall q | q in qs[..|qs| - 1] :: q in qs;
      NoneCorrectScoresZero(qs[..|qs| - 1], answers);
      assert qs[|qs| - 1] in qs;
    }
  }

  /**
   * An exam made only of true/false questions created through the form
   * scores 0 for every student who takes it on the quiz page, and fails.
   */
  lemma TrueFalseExamAlwaysFails(qs: seq<Question>, answers: map<string, JsValue>)
    requires |qs| > 0
    requires forall q | q in qs :: q.qtype == TrueFalse && q.correctAnswer in {JsNum(0), JsNum(1)}
    requires forall q | q in qs :: QuizIndexAnswer(answers, q.id)
    ensures GradeSpec(qs, SubmissionAnswers(qs, answers)).score == 0
    ensures !GradeSpec(qs, SubmissionAnswers(qs, answers)).passed
  {
    var p := SubmissionAnswers(qs, answers);
    forall q | q in qs
      ensures !Truthy(ScoreQuestion(q, p).isCorrect)
    {
      QuizTrueFalseNeverCorrect(qs, answers, q);
    }
    NoneCorrectScoresZero(qs, p);
    ZeroScoreFails(TotalMarks(qs));
  }
}
