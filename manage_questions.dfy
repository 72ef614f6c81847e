/**
 * The teacher's question form: `saveQuestion()` reads the form, validates it
 * in a fixed order and builds the request body for POST /api/questions (new
 * question) or PUT /api/questions/:id (question being edited).
 */
module ManageQuestions {
  import opened JsCore
  import opened Grading
  import opened QuestionRoutes

  /** What the form holds when Save is pressed. */
  datatype QuestionForm = QuestionForm(
    elementsFound: bool,              // the text, type and marks inputs exist
    textValue: string,
    typeValue: string,                // the selected type; "" when none is selected
    marksValue: string,
    examId: Option<string>,           // the exam whose questions are being managed
    optionInputs: seq<string>,        // the option text boxes, in page order
    checkedOption: Option<nat>,       // the position of the checked "correct option" radio
    checkedTrueFalse: Option<string>, // the value of the checked true/false radio
    editingId: Option<string>)        // the question being edited, if any

  datatype FormError =
    | FormElementsMissing   // 'Form elements not found. Please refresh the page.'
    | MissingTextOrType     // 'Please fill in question text and select a type'
    | MarksOutOfRange       // 'Marks must be between 1 and 100'
    | MissingExamId         // 'Error: Exam ID is missing'
    | TooFewFormOptions     // 'Please add at least 2 options'
    | NoTrueFalseAnswer     // 'Please select the correct answer'

  datatype Target = Post | Put(id: string)

  /** The request the form sends: where, and the JSON body. */
  datatype SaveRequest = SaveRequest(target: Target, body: QuestionBody)

  /** `parseInt(value) || 1`: a value that is not a number, or is 0, becomes 1. */
  function FormMarks(value: string): (m: int)
    ensures m != 0
    ensures ParseInt(value).Some? && ParseInt(value).value != 0 ==> m == ParseInt(value).value
    ensures ParseInt(value).None? || ParseInt(value) == Some(0) ==> m == 1
  {
    match ParseInt(value)
    case Some(n) => if n != 0 then n else 1
    case None => 1
  }

  /** `correctAnswer && correctAnswer.value == index`: null when no radio is checked. */
  function CorrectFlag(checked: Option<nat>, position: nat): JsValue
  {
    if checked.None? then JsNull else JsBool(checked.value == position)
  }

  /** `input.value.trim()` is not empty. */
  predicate NonBlank(s: string)
  {
    Trim(s) != ""
  }

  /** The positions, below `n`, of the elements of `xs` that satisfy `keep`, in order. */
  function PositionsBelow<T>(xs: seq<T>, keep: T -> bool, n: nat): (ps: seq<nat>)
    requires n <= |xs|
    ensures forall j | 0 <= j < |ps| :: ps[j] < n && keep(xs[ps[j]])
  {
    if n == 0 then []
    else if keep(xs[n - 1]) then PositionsBelow(xs, keep, n - 1) + [n - 1]
    else PositionsBelow(xs, keep, n - 1)
  }

  /** The positions come in increasing order, each at most once. */
  lemma {:induction false} PositionsBelowIncreasing<T>(xs: seq<T>, keep: T -> bool, n: nat)
    requires n <= |xs|
    ensures forall j, k | 0 <= j < k < |PositionsBelow(xs, keep, n)| ::
              PositionsBelow(xs, keep, n)[j] < PositionsBelow(xs, keep, n)[k]
  {
    if n > 0 && keep(xs[n - 1]) {
      var ps0 := PositionsBelow(xs, keep, n - 1);
      PositionsBelowIncreasing(xs, keep, n - 1);
      var ps := ps0 + [n - 1];
      forall j, k | 0 <= j < k < |ps|
        ensures ps[j] < ps[k]
      {
        assert ps[j] == ps0[j];
        if k < |ps0| {
          assert ps[k] == ps0[k];
        }
      }
    } else if n > 0 {
      PositionsBelowIncreasing(xs, keep, n - 1);
    }
  }

  /** Every position below `n` whose element satisfies `keep` is listed. */
  lemma {:induction false} PositionsBelowComplete<T>(xs: seq<T>, keep: T -> bool, n: nat)
    requires n <= |xs|
    ensures forall i | 0 <= i < n && keep(xs[i]) :: i in PositionsBelow(xs, keep, n)
  {
    if n > 0 {
      PositionsBelowComplete(xs, keep, n - 1);
      var ps0 := PositionsBelow(xs, keep, n - 1);
      assert forall p | p in ps0 :: p in PositionsBelow(xs, keep, n);
    }
  }

  /** The positions of the option boxes whose trimmed text is not empty, in page order. */
  function KeptPositions(inputs: seq<string>): (ps: seq<nat>)
    ensures forall j | 0 <= j < |ps| :: ps[j] < |inputs| && NonBlank(inputs[ps[j]])
  {
    PositionsBelow(inputs, NonBlank, |inputs|)
  }

  /** The kept positions are exactly the non-blank boxes, in page order. */
  lemma KeptPositionsMeaning(inputs: seq<string>)
    ensures forall j, k | 0 <= j < k < |KeptPositions(inputs)| :: KeptPositions(inputs)[j] < KeptPositions(inputs)[k]
    ensures forall i | 0 <= i < |inputs| && NonBlank(inputs[i]) :: i in KeptPositions(inputs)
  {
    PositionsBelowIncreasing(inputs, NonBlank, |inputs|);
    PositionsBelowComplete(inputs, NonBlank, |inputs|);
  }

  /** The option object the form builds for box `p`. */
  function OptionFor(inputs: seq<string>, checked: Option<nat>, p: nat): OptionInput
    requires p < |inputs|
  {
    OptObject(Trim(inputs[p]), CorrectFlag(checked, p))
  }

  /** The option objects for the boxes at positions `ps`, in that order. */
  function OptionsAt(inputs: seq<string>, checked: Option<nat>, ps: seq<nat>): (opts: seq<OptionInput>)
    requires forall j | 0 <= j < |ps| :: ps[j] < |inputs|
  {
    seq(|ps|, j requires 0 <= j < |ps| => OptionFor(inputs, checked, ps[j]))
  }

  /** The option objects the form sends: one per non-blank box, its trimmed text and its correct flag. */
  function KeptOptions(inputs: seq<string>, checked: Option<nat>): (opts: seq<OptionInput>)
  {
    OptionsAt(inputs, checked, KeptPositions(inputs))
  }

  /** One turn of the `forEach`: box `i` adds its option exactly when its trimmed text is not empty. */
  lemma KeptStep(inputs: seq<string>, checked: Option<nat>, i: nat)
    requires i < |inputs|
    ensures OptionsAt(inputs, checked, PositionsBelow(inputs, NonBlank, i + 1)) ==
              OptionsAt(inputs, checked, PositionsBelow(inputs, NonBlank, i))
                + (if NonBlank(inputs[i]) then [OptObject(Trim(inputs[i]), CorrectFlag(checked, i))] else [])
  {
    var ps0 := PositionsBelow(inputs, NonBlank, i);
    if NonBlank(inputs[i]) {
      var ps := ps0 + [i];
      var a := OptionsAt(inputs, checked, ps);
      var b := OptionsAt(inputs, checked, ps0) + [OptionFor(inputs, checked, i)];
      assert |a| == |b|;
      forall j | 0 <= j < |a|
        ensures a[j] == b[j]
      {
        if j < |ps0| {
          assert ps[j] == ps0[j];
        }
      }
    }
  }

  /** The `forEach` over the option boxes that builds the options array. */
  method CollectOptions(inputs: seq<string>, checked: Option<nat>) returns (options: seq<OptionInput>)
    ensures options == KeptOptions(inputs, checked)
  {
    options := [];
    for i := 0 to |inputs|
      invariant options == OptionsAt(inputs, checked, PositionsBelow(inputs, NonBlank, i))
    {
      KeptStep(inputs, checked, i);
      var text := Trim(inputs[i]);
      if text != "" {
        options := options + [OptObject(text, CorrectFlag(checked, i))];
      }
    }
  }

  /** Option j of the collected list comes from box `KeptPositions(inputs)[j]`. */
  lemma KeptOptionAt(inputs: seq<string>, checked: Option<nat>, j: nat)
    requires j < |KeptPositions(inputs)|
    ensures |KeptOptions(inputs, checked)| == |KeptPositions(inputs)|
    ensures var p := KeptPositions(inputs)[j];
      && KeptOptions(inputs, checked)[j] == OptObject(Trim(inputs[p]), CorrectFlag(checked, p))
      && (MarkedCorrect(KeptOptions(inputs, checked)[j]) <==> checked == Some(p))
  {
  }

  /**
   * What the collected options mean: every one is an object with non-empty
   * trimmed text, at most one is flagged correct, and one is flagged exactly
   * when the checked radio's box is non-blank; with no radio checked every
   * flag is null.
   */
  lemma {:induction false} KeptOptionsMeaning(inputs: seq<string>, checked: Option<nat>)
    ensures var opts := KeptOptions(inputs, checked);
      && (forall j | 0 <= j < |opts| :: opts[j].OptObject? && opts[j].text != "")
      && (forall j, k | 0 <= j < k < |opts| :: !(MarkedCorrect(opts[j]) && MarkedCorrect(opts[k])))
      && ((exists j | 0 <= j < |opts| :: MarkedCorrect(opts[j])) <==>
            checked.Some? && checked.value < |inputs| && NonBlank(inputs[checked.value]))
      && (checked.None? ==> forall j | 0 <= j < |opts| :: opts[j].isCorrect == JsNull)
  {
    var opts := KeptOptions(inputs, checked);
    var ps := KeptPositions(inputs);
    KeptPositionsMeaning(inputs);
    assert |opts| == |ps|;
    forall j | 0 <= j < |opts|
      ensures opts[j].OptObject? && opts[j].text != ""
      ensures MarkedCorrect(opts[j]) <==> checked == Some(ps[j])
      ensures checked.None? ==> opts[j].isCorrect == JsNull
    {
      KeptOptionAt(inputs, checked, j);
    }
    if checked.Some? && checked.value < |inputs| && NonBlank(inputs[checked.value]) {
      var c := checked.value;
      assert c in ps;
      var j :| 0 <= j < |ps| && ps[j] == c;
      assert MarkedCorrect(opts[j]);
    }
  }

  /**
   * `saveQuestion()` up to the request: the checks in the order the form
   * makes them, then the body; the option boxes are collected only for a
   * multiple-choice question.
   */
  method SaveQuestion(form: QuestionForm) returns (r: Result<SaveRequest, FormError>)
    ensures !form.elementsFound <==> r == Err(FormElementsMissing)
    ensures form.elementsFound && (Trim(form.textValue) == "" || form.typeValue == "") <==> r == Err(MissingTextOrType)
    ensures r == Err(MarksOutOfRange) <==>
              form.elementsFound && Trim(form.textValue) != "" && form.typeValue != ""
              && !(1 <= FormMarks(form.marksValue) <= 100)
    ensures r.Ok? || r == Err(MissingExamId) || r == Err(TooFewFormOptions) || r == Err(NoTrueFalseAnswer) ==>
              form.elementsFound && Trim(form.textValue) != "" && form.typeValue != ""
              && 1 <= FormMarks(form.marksValue) <= 100
    ensures r == Err(MissingExamId) <==>
              form.elementsFound && Trim(form.textValue) != "" && form.typeValue != ""
              && 1 <= FormMarks(form.marksValue) <= 100 && !Present(form.examId)
    ensures (r.Ok? || r == Err(TooFewFormOptions) || r == Err(NoTrueFalseAnswer)) ==> Present(form.examId)
    ensures r == Err(TooFewFormOptions) ==>
              form.typeValue == MultipleChoice && |KeptOptions(form.optionInputs, form.checkedOption)| < 2
    ensures r == Err(NoTrueFalseAnswer) ==> form.typeValue == TrueFalse && form.checkedTrueFalse.None?
    ensures r.Ok? ==>
              var b := r.value.body;
              && b.text == Some(Trim(form.textValue))
              && b.qtype == Some(form.typeValue)
              && b.marks == Some(FormMarks(form.marksValue))
              && b.examId == form.examId
              && (r.value.target == if Present(form.editingId) then Put(form.editingId.value) else Post)
              && (form.typeValue == MultipleChoice <==> b.options.Some?)
              && (b.options.Some? ==>
                    b.options.value == KeptOptions(form.optionInputs, form.checkedOption) && |b.options.value| >= 2)
              && (form.typeValue == TrueFalse ==>
                    form.checkedTrueFalse.Some? && b.correctAnswer == JsBool(form.checkedTrueFalse.value == "true"))
              && (form.typeValue != TrueFalse ==> b.correctAnswer == JsUndefined)
    ensures Present(form.examId) && form.elementsFound && Trim(form.textValue) != "" && form.typeValue != ""
            && 1 <= FormMarks(form.marksValue) <= 100 ==>
              (r.Ok? <==>
                 (form.typeValue == MultipleChoice ==> |KeptOptions(form.optionInputs, form.checkedOption)| >= 2)
                 && (form.typeValue == TrueFalse ==> form.checkedTrueFalse.Some?))
  {
    if !form.elementsFound {
      return Err(FormElementsMissing);
    }
    var questionText := Trim(form.textValue);
    var questionType := form.typeValue;
    var questionMarks := FormMarks(form.marksValue);
    if questionText == "" || questionType == "" {
      return Err(MissingTextOrType);
    }
    if questionMarks < 1 || questionMarks > 100 {
      return Err(MarksOutOfRange);
    }
    if !Present(form.examId) {
      return Err(MissingExamId);
    }
    var body := QuestionBody(Some(questionText), Some(questionType), form.examId, None, JsUndefined, Some(questionMarks));
    if questionType == MultipleChoice {
      var options := CollectOptions(form.optionInputs, form.checkedOption);
      if |options| < 2 {
        return Err(TooFewFormOptions);
      }
      body := body.(options := Some(options));
    } else if questionType == TrueFalse {
      if form.checkedTrueFalse.None? {
        return Err(NoTrueFalseAnswer);
      }
      body := body.(correctAnswer := JsBool(form.checkedTrueFalse.value == "true"));
    }
    var target := if Present(form.editingId) then Put(form.editingId.value) else Post;
    r := Ok(SaveRequest(target, body));
  }
}
