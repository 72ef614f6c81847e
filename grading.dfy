/**
 * The result-submission handler of the results API (POST /api/results): it
 * checks the exam id, loads the exam and its questions, walks the questions in
 * the order the store returns them, scores each against the first submitted
 * answer carrying its id, and derives score, total marks, percentage and the
 * 50 % pass flag.
 */
module Grading {
  import opened JsCore

  const MultipleChoice: string := "multiple-choice"
  const TrueFalse: string := "true-false"
  const Descriptive: string := "descriptive"

  /** A stored question document. `correctAnswer` is a mixed-type field. */
  datatype Question = Question(
    id: string,
    examId: string,
    text: string,
    qtype: string,
    options: seq<string>,
    correctAnswer: JsValue,
    marks: int)

  /** One element of the submitted `answers` array. */
  datatype SubmittedAnswer = SubmittedAnswer(questionId: string, userAnswer: JsValue, questionType: string)

  /**
   * One element of the result's `answers` array. `isCorrect` is whatever the
   * handler's `userAnswer && ...` produced: a boolean, or `undefined` when no
   * answer carries the question's id.
   */
  datatype ScoredAnswer = ScoredAnswer(
    questionId: string,
    userAnswer: JsValue,
    questionType: string,
    isCorrect: JsValue,
    marks: int,
    earnedMarks: int)

  /** `(score / totalMarks) * 100` as an IEEE double would come out, up to rounding. */
  datatype Percentage = Finite(value: real) | NaN | PlusInfinity | MinusInfinity

  /** The result document before it is saved. */
  datatype Graded = Graded(
    answers: seq<ScoredAnswer>,
    score: int,
    totalMarks: int,
    totalQuestions: nat,
    percentage: Percentage,
    passed: bool)

  datatype GradeError = InvalidExamId | ExamNotFound | NoQuestions

  // ---------------------------------------------------------------------------
  // Specification of one question

  /** `question.marks || 1` */
  function QuestionMarks(q: Question): (m: int)
    ensures q.marks >= 0 ==> m >= 1
    ensures q.marks == 0 ==> m == 1
    ensures q.marks != 0 ==> m == q.marks
  {
    if q.marks == 0 then 1 else q.marks
  }

  /** Position of the first answer whose id is `id`; `|answers|` when there is none. */
  function FindIndex(answers: seq<SubmittedAnswer>, id: string): (k: nat)
    ensures k <= |answers|
    ensures k < |answers| ==> answers[k].questionId == id
    ensures forall j | 0 <= j < k :: answers[j].questionId != id
  {
    if |answers| == 0 then 0
    else if answers[0].questionId == id then 0
    else 1 + FindIndex(answers[1..], id)
  }

  /** `answers.find(a => a.questionId === id)` */
  function FindAnswer(answers: seq<SubmittedAnswer>, id: string): (r: Option<SubmittedAnswer>)
    ensures r.None? <==> forall a | a in answers :: a.questionId != id
    ensures r.Some? ==> r.value in answers && r.value.questionId == id
    ensures r.Some? ==> exists k | 0 <= k < |answers| && answers[k] == r.value ::
              forall j | 0 <= j < k :: answers[j].questionId != id
  {
    var k := FindIndex(answers, id);
    if k < |answers| then Some(answers[k]) else None
  }

  /** `parseInt(answer) === expected`; NaN equals nothing, and a number never equals a non-number. */
  predicate ParsesTo(answer: JsValue, expected: JsValue)
  {
    var p := ParseIntValue(answer);
    p.Some? && expected == JsNum(p.value)
  }

  /** Index a true/false answer must parse to: 1 only for a stored `true` or `'true'`. */
  function ExpectedTrueFalseIndex(stored: JsValue): int
  {
    if stored == JsBool(true) || stored == JsStr("true") then 1 else 0
  }

  /** Correctness of one question given the answer found for it. */
  predicate Correct(q: Question, found: Option<SubmittedAnswer>)
  {
    if q.qtype == MultipleChoice then
      found.Some? && ParsesTo(found.value.userAnswer, q.correctAnswer)
    else if q.qtype == TrueFalse then
      found.Some? && ParsesTo(found.value.userAnswer, JsNum(ExpectedTrueFalseIndex(q.correctAnswer)))
    else
      false
  }

  /**
   * The value the handler leaves in `isCorrect`: `userAnswer && ...` is
   * `undefined` for an auto-graded question without a matching answer; any
   * other question keeps a boolean.
   */
  function IsCorrectValue(q: Question, found: Option<SubmittedAnswer>): JsValue
  {
    if (q.qtype == MultipleChoice || q.qtype == TrueFalse) && found.None? then JsUndefined
    else JsBool(Correct(q, found))
  }

  /** The scored record for one question: all of its marks, or none. */
  function ScoreQuestion(q: Question, answers: seq<SubmittedAnswer>): (s: ScoredAnswer)
    ensures s.marks == QuestionMarks(q) && s.marks != 0
    ensures s.earnedMarks == 0 || s.earnedMarks == s.marks
    ensures s.earnedMarks != 0 ==> Truthy(s.isCorrect) && (q.qtype == MultipleChoice || q.qtype == TrueFalse)
  {
    var found := FindAnswer(answers, q.id);
    var isCorrect := IsCorrectValue(q, found);
    ScoredAnswer(
      q.id,
      if found.Some? then found.value.userAnswer else JsNull,
      q.qtype,
      isCorrect,
      QuestionMarks(q),
      if Truthy(isCorrect) then QuestionMarks(q) else 0)
  }

  /**
   * What one scored answer means: marks are all or nothing; only multiple-choice
   * and true/false questions can be correct; a missing or non-numeric answer is
   * incorrect, never an error; a multiple-choice answer is correct iff it parses
   * to the stored number; a true/false answer iff it parses to 1 for a stored
   * `true`/`'true'` and to 0 for anything else. The flag is `undefined` for an
   * auto-graded question nobody answered, and a boolean otherwise.
   */
  lemma ScoreQuestionMeaning(q: Question, answers: seq<SubmittedAnswer>)
    ensures var s := ScoreQuestion(q, answers);
      && s.questionId == q.id && s.questionType == q.qtype && s.marks == QuestionMarks(q)
      && s.earnedMarks == (if Truthy(s.isCorrect) then s.marks else 0)
      && (s.isCorrect == JsUndefined <==>
            (q.qtype == MultipleChoice || q.qtype == TrueFalse) && FindAnswer(answers, q.id).None?)
      && (s.isCorrect != JsUndefined ==> s.isCorrect.JsBool?)
      && (q.qtype == Descriptive ==> s.isCorrect == JsBool(false) && s.earnedMarks == 0)
      && (q.qtype != MultipleChoice && q.qtype != TrueFalse ==> s.isCorrect == JsBool(false))
      && ((forall a | a in answers :: a.questionId != q.id) ==> s.userAnswer == JsNull && !Truthy(s.isCorrect))
      && (FindAnswer(answers, q.id).Some? ==> s.userAnswer == FindAnswer(answers, q.id).value.userAnswer)
      && (ParseIntValue(s.userAnswer) == None ==> !Truthy(s.isCorrect))
      && (q.qtype == MultipleChoice ==>
            (Truthy(s.isCorrect) <==>
               (FindAnswer(answers, q.id).Some? && q.correctAnswer.JsNum?
                && ParseIntValue(s.userAnswer) == Some(q.correctAnswer.n))))
      && (q.qtype == TrueFalse ==>
            (Truthy(s.isCorrect) <==>
               (FindAnswer(answers, q.id).Some?
                && ParseIntValue(s.userAnswer) == Some(ExpectedTrueFalseIndex(q.correctAnswer)))))
  {
    ParseIntOfNonNumbers(JsNull);
  }

  /** A true/false question expects index 1 exactly for a stored `true` or `'true'`, and 0 otherwise. */
  lemma ExpectedTrueFalseIndexMeaning(stored: JsValue)
    ensures ExpectedTrueFalseIndex(stored) in {0, 1}
    ensures ExpectedTrueFalseIndex(stored) == 1 <==> stored == JsBool(true) || stored == JsStr("true")
  {
  }

  // ---------------------------------------------------------------------------
  // Specification of the whole submission

  /** The scored answers, one per question, in question order. */
  function ScoreAll(qs: seq<Question>, answers: seq<SubmittedAnswer>): seq<ScoredAnswer>
  {
    if |qs| == 0 then [] else ScoreAll(qs[..|qs| - 1], answers) + [ScoreQuestion(qs[|qs| - 1], answers)]
  }

  /** Sum of `marks || 1` over the questions. */
  function TotalMarks(qs: seq<Question>): int
  {
    if |qs| == 0 then 0 else TotalMarks(qs[..|qs| - 1]) + QuestionMarks(qs[|qs| - 1])
  }

  /** Sum of the earned marks over the questions. */
  function Score(qs: seq<Question>, answers: seq<SubmittedAnswer>): int
  {
    if |qs| == 0 then 0 else Score(qs[..|qs| - 1], answers) + ScoreQuestion(qs[|qs| - 1], answers).earnedMarks
  }

  /** `(score / totalMarks) * 100` on exact rationals, with JavaScript's results for a zero divisor. */
  function PercentageOf(score: int, totalMarks: int): Percentage
  {
    if totalMarks != 0 then Finite((score as real / totalMarks as real) * 100.0)
    else if score == 0 then NaN
    else if score > 0 then PlusInfinity
    else MinusInfinity
  }

  /** `percentage >= 50`; NaN compares false. */
  predicate AtLeastFifty(p: Percentage)
  {
    match p
    case Finite(x) => x >= 50.0
    case PlusInfinity => true
    case NaN => false
    case MinusInfinity => false
  }

  /**
   * The result document the handler builds for a non-empty question list. A
   * pass needs some score, and the percentage is a number exactly when the
   * total is not zero.
   */
  function GradeSpec(qs: seq<Question>, answers: seq<SubmittedAnswer>): (g: Graded)
    ensures g.totalQuestions == |qs|
    ensures g.passed ==> g.score != 0
    ensures g.percentage.Finite? <==> g.totalMarks != 0
  {
    ZeroScoreFails(TotalMarks(qs));
    var score := Score(qs, answers);
    var total := TotalMarks(qs);
    Graded(
      ScoreAll(qs, answers),
      score,
      total,
      |qs|,
      PercentageOf(score, total),
      AtLeastFifty(PercentageOf(score, total)))
  }

  // ---------------------------------------------------------------------------
  // The handler

  /**
   * The POST handler from the exam-id check to the result document. The id
   * check is the document mapper's `ObjectId.isValid`, passed in; `examFound`
   * is the outcome of the exam lookup; `questions` is what the question query
   * returned, in its order.
   */
  method Grade(
    examId: string, isValidId: string -> bool, examFound: bool,
    questions: seq<Question>, answers: seq<SubmittedAnswer>)
    returns (r: Result<Graded, GradeError>)
    ensures !isValidId(examId) ==> r == Err(InvalidExamId)
    ensures isValidId(examId) && !examFound ==> r == Err(ExamNotFound)
    ensures isValidId(examId) && examFound && |questions| == 0 ==> r == Err(NoQuestions)
    ensures isValidId(examId) && examFound && |questions| > 0 ==> r == Ok(GradeSpec(questions, answers))
  {
    if !isValidId(examId) {
      return Err(InvalidExamId);
    }
    if !examFound {
      return Err(ExamNotFound);
    }
    if |questions| == 0 {
      return Err(NoQuestions);
    }

    var processed, score, totalMarks := ScoreQuestions(questions, answers);

    var percentage := PercentageOf(score, totalMarks);
    var passed := AtLeastFifty(percentage);
    r := Ok(Graded(processed, score, totalMarks, |questions|, percentage, passed));
  }

  /** Extending a prefix of the questions by one adds that question to both sums. */
  lemma PrefixStep(qs: seq<Question>, answers: seq<SubmittedAnswer>, i: nat)
    requires i < |qs|
    ensures Score(qs[..i + 1], answers) == Score(qs[..i], answers) + ScoreQuestion(qs[i], answers).earnedMarks
    ensures TotalMarks(qs[..i + 1]) == TotalMarks(qs[..i]) + QuestionMarks(qs[i])
    ensures ScoreAll(qs[..i + 1], answers) == ScoreAll(qs[..i], answers) + [ScoreQuestion(qs[i], answers)]
  {
    assert qs[..i + 1][..i] == qs[..i];
  }

  /** The handler's scoring loop: one pass over the questions accumulating score, total and scored answers. */
  method ScoreQuestions(questions: seq<Question>, answers: seq<SubmittedAnswer>)
    returns (processed: seq<ScoredAnswer>, score: int, totalMarks: int)
    ensures processed == ScoreAll(questions, answers)
    ensures score == Score(questions, answers)
    ensures totalMarks == TotalMarks(questions)
  {
    score := 0;
    totalMarks := 0;
    processed := [];
    for i := 0 to |questions|
      invariant score == Score(questions[..i], answers)
      invariant totalMarks == TotalMarks(questions[..i])
      invariant processed == ScoreAll(questions[..i], answers)
    {
      PrefixStep(questions, answers, i);
      var question := questions[i];
      var userAnswer := FindAnswer(answers, question.id);
      var isCorrect := JsBool(false);
      ghost var scoreBefore := score;
      var questionMarks := if question.marks != 0 then question.marks else 1;
      totalMarks := totalMarks + questionMarks;

      if question.qtype == MultipleChoice {
        isCorrect := if userAnswer.None? then JsUndefined
                     else JsBool(ParsesTo(userAnswer.value.userAnswer, question.correctAnswer));
        if Truthy(isCorrect) { score := score + questionMarks; }
      } else if question.qtype == TrueFalse {
        var correctAnswer := if question.correctAnswer == JsBool(true) || question.correctAnswer == JsStr("true") then 1 else 0;
        isCorrect := if userAnswer.None? then JsUndefined
                     else JsBool(ParsesTo(userAnswer.value.userAnswer, JsNum(correctAnswer)));
        if Truthy(isCorrect) { score := score + questionMarks; }
      } else if question.qtype == Descriptive {
        isCorrect := JsBool(false);
      }
      assert isCorrect == IsCorrectValue(question, userAnswer);
      assert questionMarks == QuestionMarks(question);
      assert score == scoreBefore + (if Truthy(isCorrect) then questionMarks else 0);

      var scored := ScoredAnswer(
        question.id,
        if userAnswer.Some? then userAnswer.value.userAnswer else JsNull,
        question.qtype,
        isCorrect,
        questionMarks,
        if Truthy(isCorrect) then questionMarks else 0);
      assert scored == ScoreQuestion(question, answers);
      processed := processed + [scored];
    }
    assert questions[..|questions|] == questions;
  }

  // ---------------------------------------------------------------------------
  // What the handler promises

  /** One scored answer per question, in question order: position i holds question i's own scored record. */
  lemma {:induction false} ScoreAllShape(qs: seq<Question>, answers: seq<SubmittedAnswer>)
    ensures |ScoreAll(qs, answers)| == |qs|
    ensures forall i | 0 <= i < |qs| :: ScoreAll(qs, answers)[i] == ScoreQuestion(qs[i], answers)
  {
    if |qs| > 0 {
      var front := qs[..|qs| - 1];
      ScoreAllShape(front, answers);
      var s := ScoreAll(qs, answers);
      assert s == ScoreAll(front, answers) + [ScoreQuestion(qs[|qs| - 1], answers)];
      forall i | 0 <= i < |qs|
        ensures s[i] == ScoreQuestion(qs[i], answers)
      {
        if i < |qs| - 1 {
          assert s[i] == ScoreAll(front, answers)[i];
          assert front[i] == qs[i];
        }
      }
    }
  }

  /** The total counts every question, answered or not: it does not depend on the answers. */
  lemma {:induction false} TotalMarksIgnoresAnswers(qs: seq<Question>, a1: seq<SubmittedAnswer>, a2: seq<SubmittedAnswer>)
    ensures GradeSpec(qs, a1).totalMarks == GradeSpec(qs, a2).totalMarks
    ensures (forall q | q in qs :: q.marks >= 0) ==> TotalMarks(qs) >= |qs|
  {
    if |qs| > 0 {
      TotalMarksIgnoresAnswers(qs[..|qs| - 1], a1, a2);
      assert forall q | q in qs[..|qs| - 1] :: q in qs;
    }
  }

  /** With non-negative marks, `0 <= score <= totalMarks`. */
  lemma {:induction false} ScoreWithinTotal(qs: seq<Question>, answers: seq<SubmittedAnswer>)
    requires forall q | q in qs :: q.marks >= 0
    ensures 0 <= Score(qs, answers) <= TotalMarks(qs)
  {
    if |qs| > 0 {
      assert forall q | q in qs[..|qs| - 1] :: q in qs;
      ScoreWithinTotal(qs[..|qs| - 1], answers);
      assert qs[|qs| - 1] in qs;
    }
  }

  /** The score is the sum of the earned marks of the scored answers. */
  lemma {:induction false} ScoreIsSumOfEarned(qs: seq<Question>, answers: seq<SubmittedAnswer>)
    ensures Score(qs, answers) == SumEarned(GradeSpec(qs, answers).answers)
  {
    var g := GradeSpec(qs, answers);
    if |qs| > 0 {
      var front := qs[..|qs| - 1];
      ScoreIsSumOfEarned(front, answers);
      assert GradeSpec(front, answers).answers == g.answers[..|g.answers| - 1];
    }
  }

  function SumEarned(s: seq<ScoredAnswer>): int
  {
    if |s| == 0 then 0 else SumEarned(s[..|s| - 1]) + s[|s| - 1].earnedMarks
  }

  /** Only auto-gradable questions earn marks: changing the answers to anything leaves the score of descriptive questions at 0. */
  lemma {:induction false} DescriptiveNeverScores(qs: seq<Question>, answers: seq<SubmittedAnswer>)
    requires forall q | q in qs :: q.qtype == Descriptive
    ensures Score(qs, answers) == 0
  {
    if |qs| > 0 {
      assert forall q | q in qs[..|qs| - 1] :: q in qs;
      DescriptiveNeverScores(qs[..|qs| - 1], answers);
      assert qs[|qs| - 1] in qs;
    }
  }

  /**
   * The pass flag is decided on the unrounded percentage: with a positive
   * total, `passed` exactly when `score * 100 >= 50 * totalMarks`, 50 % included.
   */
  lemma PassedIffHalf(score: int, totalMarks: int)
    requires totalMarks > 0
    ensures AtLeastFifty(PercentageOf(score, totalMarks)) <==> score * 100 >= 50 * totalMarks
    ensures 0 <= score <= totalMarks ==>
              0.0 <= PercentageOf(score, totalMarks).value <= 100.0
  {
    var s, t := score as real, totalMarks as real;
    assert PercentageOf(score, totalMarks) == Finite((s / t) * 100.0);
    RatioAtLeastHalf(s, t);
    assert (score * 100 >= 50 * totalMarks) <==> (s * 100.0 >= 50.0 * t);
    if 0 <= score <= totalMarks {
      RatioWithinHundred(s, t);
    }
  }

  /** A score of 0 never passes: the percentage is 0 for a non-zero total and NaN for a zero one. */
  lemma ZeroScoreFails(totalMarks: int)
    ensures !AtLeastFifty(PercentageOf(0, totalMarks))
  {
    if totalMarks != 0 {
      assert (0 as real / totalMarks as real) * 100.0 == 0.0;
    }
  }

  lemma RatioAtLeastHalf(s: real, t: real)
    requires t > 0.0
    ensures (s / t) * 100.0 >= 50.0 <==> s * 100.0 >= 50.0 * t
  {
    var q := s / t;
    assert q * t == s;
    assert (q * 100.0) * t == s * 100.0;
    ScaleCompare(q * 100.0, 50.0, t);
  }

  lemma RatioWithinHundred(s: real, t: real)
    requires 0.0 <= s <= t
    requires t > 0.0
    ensures 0.0 <= (s / t) * 100.0 <= 100.0
  {
    var q := s / t;
    assert q * t == s;
    ScaleCompare(q, 0.0, t);
    ScaleCompare(1.0, q, t);
  }

  /** Multiplying both sides by a positive number keeps the comparison. */
  lemma ScaleCompare(x: real, y: real, t: real)
    requires t > 0.0
    ensures x >= y <==> x * t >= y * t
  {
    assert x * t - y * t == (x - y) * t;
    if x < y {
      assert (y - x) * t > 0.0;
    }
  }

  /**
   * A graded submission over questions with non-negative marks has a positive
   * total, so the percentage is a finite value in [0, 100] and the pass flag
   * is `2 * score >= totalMarks`.
   */
  lemma GradeSpecBounds(qs: seq<Question>, answers: seq<SubmittedAnswer>)
    requires |qs| > 0
    requires forall q | q in qs :: q.marks >= 0
    ensures var g := GradeSpec(qs, answers);
      && 0 <= g.score <= g.totalMarks
      && g.totalMarks >= 1
      && g.totalQuestions == |qs| && |g.answers| == |qs|
      && g.percentage.Finite?
      && 0.0 <= g.percentage.value <= 100.0
      && (g.passed <==> 2 * g.score >= g.totalMarks)
  {
    ScoreWithinTotal(qs, answers);
    TotalMarksIgnoresAnswers(qs, answers, answers);
    ScoreAllShape(qs, answers);
    PassedIffHalf(Score(qs, answers), TotalMarks(qs));
  }
}
