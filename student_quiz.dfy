/**
 * The student quiz page: the page-level state (loaded questions, the question
 * cursor, the answer dictionary, the quiz duration and the timer's warning
 * style), its navigation, the countdown display and the answers payload that
 * is posted to the results API.
 */
module StudentQuiz {
  import opened JsCore
  import opened Grading

  datatype InitError =
    | NoExamSelected    // 'No exam selected. Please go back and select an exam.'
    | NotAuthenticated  // 'Not authenticated. Please login first.'
    | ExamLoadFailed    // 'Failed to load exam'
    | QuestionsLoadFailed  // 'Failed to load questions'
    | EmptyExam         // 'No questions found in this exam'

  /** Which of the three navigation buttons are displayed. */
  datatype NavButtons = NavButtons(prev: bool, next: bool, submit: bool)

  /** One tick of the countdown: the text shown, whether the warning style is added, whether the quiz is auto-submitted. */
  datatype Tick = Tick(text: string, warn: bool, autoSubmit: bool)

  // ---------------------------------------------------------------------------
  // Timer arithmetic

  /** The quotient `a / b` truncated toward zero, for positive `b`. */
  function TruncQuot(a: int, b: int): int
    requires b > 0
  {
    if a >= 0 then a / b else -((-a) / b)
  }

  /**
   * JavaScript's `a % b` for positive `b`: `a` minus `b` times the truncated
   * quotient, so the remainder has the sign of `a` and a magnitude below `b`.
   */
  function JsRem(a: int, b: int): (r: int)
    requires b > 0
    ensures a == TruncQuot(a, b) * b + r
    ensures a >= 0 ==> 0 <= r < b && r == a % b
    ensures a < 0 ==> -b < r <= 0
  {
    if a >= 0 then a % b
    else
      var q := (-a) / b;
      assert -a == q * b + (-a) % b;
      assert -(q * b) == (-q) * b;
      -((-a) % b)
  }

  /**
   * The countdown as the page renders it: whole minutes and the JavaScript
   * remainder of the seconds, each padded to two digits, joined by a colon.
   * Whatever the count, both fields have at least two characters.
   */
  function TimerText(remaining: int): (t: string)
    ensures |t| >= 5
  {
    Pad2Shape(remaining / 60);
    Pad2Shape(JsRem(remaining, 60));
    Pad2(remaining / 60) + ":" + Pad2(JsRem(remaining, 60))
  }

  /**
   * For a non-negative count of seconds the display reads back: the last two
   * characters are the seconds, preceded by a colon, preceded by the minutes,
   * and it is exactly five characters below 100 minutes.
   */
  lemma TimerTextReadsBack(r: nat)
    ensures var t := TimerText(r);
      && |t| >= 5 && t[|t| - 3] == ':'
      && ParseInt(t[|t| - 2..]) == Some(r % 60)
      && ParseInt(t[..|t| - 3]) == Some(r / 60)
      && (r < 6000 ==> |t| == 5)
  {
    TimerTextOfNat(r);
    PaddedFieldsReadBack(r / 60, r % 60);
  }

  /** Two padded fields joined by a colon split back into their values. */
  lemma PaddedFieldsReadBack(a: nat, b: nat)
    requires b < 100
    ensures var t := Pad2(a) + ":" + Pad2(b);
      && |t| >= 5 && t[|t| - 3] == ':'
      && ParseInt(t[|t| - 2..]) == Some(b)
      && ParseInt(t[..|t| - 3]) == Some(a)
      && (a < 100 ==> |t| == 5)
  {
    var m, s := Pad2(a), Pad2(b);
    var t := m + ":" + s;
    Pad2Length(a);
    Pad2Length(b);
    assert t[|t| - 2..] == s + [];
    assert t[..|t| - 3] == m + [];
    ParseIntOfPad2(b, []);
    ParseIntOfPad2(a, []);
  }

  /** For a non-negative count the seconds field is the ordinary remainder. */
  lemma TimerTextOfNat(r: nat)
    ensures TimerText(r) == Pad2(r / 60) + ":" + Pad2(r % 60)
  {
    assert JsRem(r, 60) == r % 60;
  }

  /** `Math.max(0, duration - elapsed)` */
  function Remaining(duration: int, elapsed: nat): (r: nat)
    ensures r == 0 <==> elapsed >= duration
    ensures elapsed < duration ==> r == duration - elapsed
    ensures r <= duration || duration < 0
  {
    if duration - elapsed > 0 then duration - elapsed else 0
  }

  // ---------------------------------------------------------------------------
  // The answers payload

  /** `userAnswers[id] || null`: a missing or falsy stored answer is sent as null. */
  function SubmittedValue(answers: map<string, JsValue>, id: string): (v: JsValue)
    ensures Truthy(v) <==> id in answers && Truthy(answers[id])
    ensures Truthy(v) ==> v == answers[id]
    ensures !Truthy(v) ==> v == JsNull
  {
    if id in answers && Truthy(answers[id]) then answers[id] else JsNull
  }

  /** `allQuestions.map(q => ({questionId: q._id, userAnswer: userAnswers[q._id] || null, questionType: q.type}))` */
  function SubmissionAnswers(questions: seq<Question>, answers: map<string, JsValue>): (p: seq<SubmittedAnswer>)
    ensures |p| == |questions|
    ensures forall i | 0 <= i < |questions| ::
              && p[i].questionId == questions[i].id
              && p[i].questionType == questions[i].qtype
              && p[i].userAnswer == SubmittedValue(answers, questions[i].id)
  {
    if |questions| == 0 then []
    else
      [SubmittedAnswer(questions[0].id, SubmittedValue(answers, questions[0].id), questions[0].qtype)]
        + SubmissionAnswers(questions[1..], answers)
  }

  /** A stored index 0, an empty text or a missing entry all reach the server as null. */
  lemma FalsyAnswersSubmittedAsNull(questions: seq<Question>, answers: map<string, JsValue>, i: nat)
    requires i < |questions|
    requires questions[i].id !in answers || answers[questions[i].id] in {JsNum(0), JsStr(""), JsNull, JsUndefined, JsBool(false)}
    ensures SubmissionAnswers(questions, answers)[i].userAnswer == JsNull
  {
  }

  // ---------------------------------------------------------------------------
  // The page state

  class QuizSession {
    var questions: seq<Question>
    var index: int
    var answers: map<string, JsValue>
    var duration: int
    var timerWarning: bool

    /** The cursor points at a loaded question, or at 0 while none is loaded. */
    ghost predicate Valid()
      reads this
    {
      0 <= index && (if |questions| == 0 then index == 0 else index < |questions|)
    }

    /** The module-level initial values: no questions, index 0, no answers, duration 0. */
    constructor ()
      ensures Valid()
      ensures questions == [] && index == 0 && answers == map[] && duration == 0 && !timerWarning
    {
      questions, index, answers, duration, timerWarning := [], 0, map[], 0, false;
    }

    /**
     * Page start-up. `examDuration` is the exam's duration in minutes (None
     * when the exam request failed); `loaded` the question list (None when
     * that request failed). The duration is set before the questions are
     * checked; an empty list is an error after it was stored.
     */
    method Initialize(hasExamId: bool, hasToken: bool, examDuration: Option<int>, loaded: Option<seq<Question>>)
      returns (r: Result<(), InitError>)
      requires Valid() && questions == []
      modifies this
      ensures Valid() && answers == old(answers)
      ensures !hasExamId ==> r == Err(NoExamSelected) && unchanged(this)
      ensures hasExamId && !hasToken ==> r == Err(NotAuthenticated) && unchanged(this)
      ensures hasExamId && hasToken && examDuration.None? ==> r == Err(ExamLoadFailed) && unchanged(this)
      ensures hasExamId && hasToken && examDuration.Some? ==> duration == examDuration.value * 60
      ensures hasExamId && hasToken && examDuration.Some? && loaded.None? ==>
                r == Err(QuestionsLoadFailed) && questions == old(questions)
      ensures hasExamId && hasToken && examDuration.Some? && loaded.Some? ==> questions == loaded.value
      ensures r.Ok? <==> hasExamId && hasToken && examDuration.Some? && loaded.Some? && |loaded.value| > 0
      ensures hasExamId && hasToken && examDuration.Some? && loaded.Some? && |loaded.value| == 0 ==> r == Err(EmptyExam)
      ensures r.Ok? ==> index == 0 && timerWarning == (old(timerWarning) || duration < 300)
      ensures r.Err? ==> index == old(index) && timerWarning == old(timerWarning)
    {
      if !hasExamId {
        return Err(NoExamSelected);
      }
      if !hasToken {
        return Err(NotAuthenticated);
      }
      if examDuration.None? {
        return Err(ExamLoadFailed);
      }
      duration := examDuration.value * 60;
      if loaded.None? {
        return Err(QuestionsLoadFailed);
      }
      questions := loaded.value;
      if |questions| == 0 {
        return Err(EmptyExam);
      }
      var _ := ShowTime(duration);
      ShowQuestion(0);
      r := Ok(());
    }

    /** `showQuestion(i)`: moves the cursor; every caller passes a loaded position. */
    method ShowQuestion(i: int)
      requires 0 <= i < |questions|
      modifies this`index
      ensures index == i && Valid()
    {
      index := i;
    }

    /** `saveAnswer(q, a)`: sets one entry of the answer dictionary. */
    method SaveAnswer(questionId: string, answer: JsValue)
      modifies this`answers
      ensures answers == old(answers)[questionId := answer]
      ensures questionId in answers && answers[questionId] == answer
      ensures forall id | id in old(answers) && id != questionId :: id in answers && answers[id] == old(answers)[id]
    {
      answers := answers[questionId := answer];
    }

    /** `nextQuestion()`: advances only from a question that is not the last. */
    method NextQuestion()
      requires Valid()
      modifies this`index
      ensures Valid()
      ensures index == if old(index) < |questions| - 1 then old(index) + 1 else old(index)
    {
      if index < |questions| - 1 {
        ShowQuestion(index + 1);
      }
    }

    /** `previousQuestion()`: retreats only from a question that is not the first. */
    method PreviousQuestion()
      requires Valid()
      modifies this`index
      ensures Valid()
      ensures index == if old(index) > 0 then old(index) - 1 else old(index)
    {
      if index > 0 {
        ShowQuestion(index - 1);
      }
    }

    /** `updateNavigationButtons()`: Prev from the second question on; Submit instead of Next on the last. */
    function Buttons(): (b: NavButtons)
      reads this
      ensures b.prev <==> index > 0
      ensures b.next != b.submit
      ensures b.submit <==> index >= |questions| - 1
    {
      NavButtons(index > 0, index < |questions| - 1, !(index < |questions| - 1))
    }

    /** `updateTimerDisplay(r)`: the text, and the warning style once fewer than 300 seconds remain. */
    method ShowTime(remaining: int) returns (text: string)
      modifies this`timerWarning
      ensures text == TimerText(remaining)
      ensures timerWarning == (old(timerWarning) || remaining < 300)
    {
      text := TimerText(remaining);
      if remaining < 300 {
        timerWarning := true;
      }
    }

    /** One interval tick, `elapsed` whole seconds after the start: display, then auto-submit at zero. */
    method TimerTick(elapsed: nat) returns (t: Tick)
      modifies this`timerWarning
      ensures t.text == TimerText(Remaining(duration, elapsed))
      ensures t.autoSubmit <==> elapsed >= duration
      ensures t.warn <==> Remaining(duration, elapsed) < 300
      ensures timerWarning == (old(timerWarning) || t.warn)
    {
      var remainingSeconds := if duration - elapsed > 0 then duration - elapsed else 0;
      var text := ShowTime(remainingSeconds);
      t := Tick(text, remainingSeconds < 300, remainingSeconds == 0);
    }
  }

  /**
   * Starting from `showQuestion(0)` on a non-empty quiz, any sequence of Next
   * and Previous presses keeps the cursor on a loaded question, and the
   * buttons then show Submit exactly on the last one.
   */
  method Navigate(s: QuizSession, presses: seq<bool>)
    requires s.Valid() && |s.questions| > 0
    modifies s`index
    ensures s.Valid() && 0 <= s.index < |s.questions|
    ensures s.Buttons().submit <==> s.index == |s.questions| - 1
  {
    for i := 0 to |presses|
      invariant s.Valid()
    {
      if presses[i] { s.NextQuestion(); } else { s.PreviousQuestion(); }
    }
  }
}
