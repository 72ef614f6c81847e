/**
 * The question endpoints' request-body normalisation: POST /api/questions
 * turns a body into a question document (or a 400/404), PUT /api/questions/:id
 * overwrites the loaded document's fields in place.
 */
module QuestionRoutes {
  import opened JsCore
  import opened Grading

  /** An element of the body's `options` array: a plain string or an `{text, isCorrect}` object. */
  datatype OptionInput = OptText(s: string) | OptObject(text: string, isCorrect: JsValue)

  /** The fields of a request body; an absent field is None (or JsUndefined). */
  datatype QuestionBody = QuestionBody(
    text: Option<string>,
    qtype: Option<string>,
    examId: Option<string>,
    options: Option<seq<OptionInput>>,
    correctAnswer: JsValue,
    marks: Option<int>)

  datatype QuestionError =
    | MissingFields     // 400 'Text, type, and examId are required'
    | UnknownExam       // 404 'Exam not found'
    | TooFewOptions     // 400 'Multiple choice questions require at least 2 options'

  /** The stored options and correct answer of an auto-graded question. */
  datatype Choices = Choices(options: seq<string>, correctAnswer: JsValue)

  /** `opt.isCorrect` is truthy; a plain string has no such property. */
  predicate MarkedCorrect(o: OptionInput)
  {
    o.OptObject? && Truthy(o.isCorrect)
  }

  function OptionText(o: OptionInput): string
  {
    match o
    case OptText(s) => s
    case OptObject(text, _) => text
  }

  /** `options.map(opt => typeof opt === 'string' ? opt : opt.text)` */
  function OptionTexts(opts: seq<OptionInput>): (r: seq<string>)
    ensures |r| == |opts|
    ensures forall i | 0 <= i < |opts| :: r[i] == OptionText(opts[i])
  {
    if |opts| == 0 then [] else [OptionText(opts[0])] + OptionTexts(opts[1..])
  }

  /** `options.findIndex(opt => opt.isCorrect)`, with `|opts|` standing for -1. */
  function FirstMarkedCorrect(opts: seq<OptionInput>): (k: nat)
    ensures k <= |opts|
    ensures k < |opts| ==> MarkedCorrect(opts[k])
    ensures forall j | 0 <= j < k :: !MarkedCorrect(opts[j])
  {
    if |opts| == 0 then 0
    else if MarkedCorrect(opts[0]) then 0
    else 1 + FirstMarkedCorrect(opts[1..])
  }

  /**
   * The multiple-choice branch shared by create and update: None for missing
   * or fewer than two options, otherwise the option texts and the correct
   * index (from the `isCorrect` flags when the first option is an object,
   * else `correctAnswer || 0`).
   */
  function MultipleChoiceFields(options: Option<seq<OptionInput>>, correctAnswer: JsValue): (c: Option<Choices>)
    ensures c.None? <==> options.None? || |options.value| < 2
    ensures c.Some? ==> |c.value.options| == |options.value|
    ensures c.Some? ==> forall i | 0 <= i < |options.value| :: c.value.options[i] == OptionText(options.value[i])
    ensures c.Some? && options.value[0].OptObject? ==>
              && c.value.correctAnswer.JsNum? && 0 <= c.value.correctAnswer.n < |c.value.options|
              && (forall j | 0 <= j < c.value.correctAnswer.n :: !MarkedCorrect(options.value[j]))
              && (MarkedCorrect(options.value[c.value.correctAnswer.n])
                  || (c.value.correctAnswer.n == 0 && forall j | 0 <= j < |options.value| :: !MarkedCorrect(options.value[j])))
    ensures c.Some? && options.value[0].OptText? ==>
              c.value.correctAnswer == (if Truthy(correctAnswer) then correctAnswer else JsNum(0))
  {
    if options.None? || |options.value| < 2 then None
    else
      var opts := options.value;
      var correct :=
        if opts[0].OptObject? then
          var k := FirstMarkedCorrect(opts);
          JsNum(if k < |opts| then k else 0)
        else if Truthy(correctAnswer) then correctAnswer
        else JsNum(0);
      Some(Choices(OptionTexts(opts), correct))
  }

  /** The true/false branch: fixed options, and index 0 stored for `true`/`'true'`, 1 for anything else. */
  function TrueFalseFields(correctAnswer: JsValue): (c: Choices)
    ensures c.options == ["True", "False"]
    ensures c.correctAnswer == JsNum(0) <==> correctAnswer == JsBool(true) || correctAnswer == JsStr("true")
    ensures c.correctAnswer == JsNum(1) <==> !(correctAnswer == JsBool(true) || correctAnswer == JsStr("true"))
  {
    Choices(["True", "False"],
            JsNum(if correctAnswer == JsBool(true) || correctAnswer == JsStr("true") then 0 else 1))
  }

  /** `marks || 1` */
  function MarksOrDefault(marks: Option<int>): (m: int)
    ensures m != 0
    ensures marks.Some? && marks.value != 0 ==> m == marks.value
    ensures marks == None || marks == Some(0) ==> m == 1
  {
    if marks.Some? && marks.value != 0 then marks.value else 1
  }

  /**
   * POST /api/questions. `examFound` is the outcome of the exam lookup and
   * `newId` the id the store assigns to the saved document. A type other than
   * the three known ones keeps the document's defaults (no options, no
   * correct answer).
   */
  function CreateQuestion(body: QuestionBody, examFound: bool, newId: string): (r: Result<Question, QuestionError>)
    ensures r.Ok? ==> Present(body.text) && Present(body.qtype) && Present(body.examId) && examFound
    ensures r.Ok? ==> r.value.id == newId && r.value.marks != 0
    ensures r == Err(TooFewOptions) ==> body.qtype == Some(MultipleChoice)
    ensures r.Ok? && r.value.qtype == MultipleChoice ==> |r.value.options| >= 2
  {
    if !Present(body.text) || !Present(body.qtype) || !Present(body.examId) then Err(MissingFields)
    else if !examFound then Err(UnknownExam)
    else
      var base := Question(newId, body.examId.value, body.text.value, body.qtype.value, [], JsUndefined,
                           MarksOrDefault(body.marks));
      if body.qtype.value == MultipleChoice then
        match MultipleChoiceFields(body.options, body.correctAnswer)
        case None => Err(TooFewOptions)
        case Some(c) => Ok(base.(options := c.options, correctAnswer := c.correctAnswer))
      else if body.qtype.value == TrueFalse then
        var c := TrueFalseFields(body.correctAnswer);
        Ok(base.(options := c.options, correctAnswer := c.correctAnswer))
      else if body.qtype.value == Descriptive then
        Ok(base.(options := ["Descriptive Answer"], correctAnswer := JsNum(0)))
      else
        Ok(base)
  }

  // ---------------------------------------------------------------------------
  // What create promises

  /**
   * Create rejects a body lacking text, type or exam id before anything else,
   * then an unknown exam; the stored marks are `marks || 1`; the record keeps
   * the body's text, type and exam id.
   */
  lemma CreateValidation(body: QuestionBody, examFound: bool, newId: string)
    ensures var r := CreateQuestion(body, examFound, newId);
      && (!Present(body.text) || !Present(body.qtype) || !Present(body.examId) <==> r == Err(MissingFields))
      && (r == Err(UnknownExam) <==> Present(body.text) && Present(body.qtype) && Present(body.examId) && !examFound)
      && (r.Ok? ==>
            && r.value.id == newId
            && r.value.text == body.text.value && r.value.qtype == body.qtype.value
            && r.value.examId == body.examId.value
            && r.value.marks == (if body.marks == None || body.marks == Some(0) then 1 else body.marks.value))
  {
  }

  /**
   * The multiple-choice rule on create: at least two options are required,
   * the stored texts are the inputs mapped element by element, and with
   * object options the stored correct index is the first option flagged
   * correct, or 0 when none is; either way it indexes a stored option.
   */
  lemma CreateMultipleChoice(body: QuestionBody, examFound: bool, newId: string)
    requires Present(body.text) && Present(body.examId) && examFound
    requires body.qtype == Some(MultipleChoice)
    ensures var r := CreateQuestion(body, examFound, newId);
      && (r == Err(TooFewOptions) <==> body.options.None? || |body.options.value| < 2)
      && (r.Ok? ==>
            var opts := body.options.value;
            && |r.value.options| == |opts| >= 2
            && (forall i | 0 <= i < |opts| ::
                  r.value.options[i] == (if opts[i].OptText? then opts[i].s else opts[i].text))
            && (opts[0].OptObject? ==>
                  && r.value.correctAnswer.JsNum?
                  && 0 <= r.value.correctAnswer.n < |r.value.options|
                  && (forall j | 0 <= j < r.value.correctAnswer.n :: !MarkedCorrect(opts[j]))
                  && (MarkedCorrect(opts[r.value.correctAnswer.n])
                      || (r.value.correctAnswer.n == 0 && forall j | 0 <= j < |opts| :: !MarkedCorrect(opts[j]))))
            && (opts[0].OptText? ==>
                  r.value.correctAnswer == (if Truthy(body.correctAnswer) then body.correctAnswer else JsNum(0))))
  {
  }

  /**
   * True/false and descriptive questions get fixed encodings: `['True','False']`
   * with 0 for an input `true`/`'true'` and 1 otherwise, and
   * `['Descriptive Answer']` with 0.
   */
  lemma CreateFixedEncodings(body: QuestionBody, examFound: bool, newId: string)
    requires Present(body.text) && Present(body.examId) && examFound
    ensures var r := CreateQuestion(body, examFound, newId);
      && (body.qtype == Some(TrueFalse) ==>
            && r.Ok? && r.value.options == ["True", "False"]
            && (r.value.correctAnswer == JsNum(0) <==> body.correctAnswer in {JsBool(true), JsStr("true")})
            && r.value.correctAnswer in {JsNum(0), JsNum(1)})
      && (body.qtype == Some(Descriptive) ==>
            r.Ok? && r.value.options == ["Descriptive Answer"] && r.value.correctAnswer == JsNum(0))
  {
  }

  // ---------------------------------------------------------------------------
  // Update

  /** A question document loaded for PUT /api/questions/:id; the handler overwrites its fields in place. */
  class QuestionDocument {
    const id: string
    const examId: string
    var text: string
    var qtype: string
    var marks: int
    var options: seq<string>
    var correctAnswer: JsValue

    constructor (q: Question)
      ensures Snapshot() == q
    {
      id, examId := q.id, q.examId;
      text, qtype, marks := q.text, q.qtype, q.marks;
      options, correctAnswer := q.options, q.correctAnswer;
    }

    /** The document's current field values. */
    function Snapshot(): Question
      reads this
    {
      Question(id, examId, text, qtype, options, correctAnswer, marks)
    }

    /**
     * Text, type and marks are overwritten only by truthy values. Options and
     * correct answer change only when the body's type is multiple-choice or
     * true/false; a multiple-choice body with fewer than two options is
     * rejected after the first three fields were already overwritten in
     * memory, and the document is then not saved (`r` is the error).
     * On success `r` is the saved document.
     */
    method Update(body: QuestionBody) returns (r: Result<Question, QuestionError>)
      modifies this
      ensures text == (if Present(body.text) then body.text.value else old(text))
      ensures qtype == (if Present(body.qtype) then body.qtype.value else old(qtype))
      ensures marks == (if body.marks.Some? && body.marks.value != 0 then body.marks.value else old(marks))
      ensures body.qtype == Some(MultipleChoice) && MultipleChoiceFields(body.options, body.correctAnswer).None? ==>
                r == Err(TooFewOptions) && options == old(options) && correctAnswer == old(correctAnswer)
      ensures body.qtype == Some(MultipleChoice) && MultipleChoiceFields(body.options, body.correctAnswer).Some? ==>
                var c := MultipleChoiceFields(body.options, body.correctAnswer).value;
                    r.Ok? && options == c.options && correctAnswer == c.correctAnswer
      ensures body.qtype == Some(TrueFalse) ==>
                r.Ok? && options == TrueFalseFields(body.correctAnswer).options
                    && correctAnswer == TrueFalseFields(body.correctAnswer).correctAnswer
      ensures body.qtype != Some(MultipleChoice) && body.qtype != Some(TrueFalse) ==>
                r.Ok? && options == old(options) && correctAnswer == old(correctAnswer)
      ensures r.Ok? ==> r.value == Snapshot()
    {
      if Present(body.text) { text := body.text.value; }
      if Present(body.qtype) { qtype := body.qtype.value; }
      if body.marks.Some? && body.marks.value != 0 { marks := body.marks.value; }

      if body.qtype == Some(MultipleChoice) {
        match MultipleChoiceFields(body.options, body.correctAnswer)
        case None =>
          return Err(TooFewOptions);
        case Some(c) =>
          options, correctAnswer := c.options, c.correctAnswer;
      } else if body.qtype == Some(TrueFalse) {
        var c := TrueFalseFields(body.correctAnswer);
        options, correctAnswer := c.options, c.correctAnswer;
      }
      r := Ok(Snapshot());
    }
  }
}
