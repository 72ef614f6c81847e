/**
 * The student's exam list: which exam a card links to, its status badge,
 * whether it can be started, and the search filter over the loaded exams.
 */
module StudentExams {
  import opened JsCore

  /** An exam as the list receives it; `description` may be absent. */
  datatype Exam = Exam(underscoreId: JsValue, id: JsValue, title: string, description: Option<string>, status: string)

  datatype Badge = Active | Draft | Inactive

  /** What a card shows: its badge, whether its start button is enabled, the button's label and where it leads. */
  datatype Card = Card(badge: Badge, startEnabled: bool, startLabel: string, startLink: string)

  /** What the list area shows: the "no exams" message, or one card per exam. */
  datatype ExamListView = NoExamsMessage | Cards(cards: seq<Card>)

  /**
   * `exam._id || exam.id`: the store's `_id` takes precedence, and the id is
   * usable (truthy) exactly when one of the two is.
   */
  function ExamId(e: Exam): (r: JsValue)
    ensures Truthy(r) <==> Truthy(e.underscoreId) || Truthy(e.id)
    ensures Truthy(e.underscoreId) ==> r == e.underscoreId
    ensures !Truthy(e.underscoreId) ==> r == e.id
  {
    if Truthy(e.underscoreId) then e.underscoreId else e.id
  }

  const QuizPath: string := "/student-quiz?examId="

  /** The badge shown on the card. */
  function StatusBadge(status: string): (b: Badge)
    ensures b == Active <==> status == "active"
    ensures b == Draft <==> status == "draft"
    ensures b == Inactive <==> status != "active" && status != "draft"
  {
    if status == "active" then Active
    else if status == "draft" then Draft
    else Inactive
  }

  /** The start button is enabled only for an exam whose status is exactly `'active'`. */
  predicate CanTake(e: Exam)
  {
    e.status == "active"
  }

  /** A startable exam always wears the Active badge, and only startable ones do. */
  lemma CanTakeIffActiveBadge(e: Exam)
    ensures CanTake(e) <==> StatusBadge(e.status) == Active
  {
  }

  /** The card `displayExams` builds for one exam; the start button calls `startExam(examId)`. */
  function ExamCard(e: Exam): (c: Card)
    ensures c.badge == StatusBadge(e.status)
    ensures c.startEnabled <==> CanTake(e)
    ensures c.startLabel == if c.startEnabled then "Start Exam" else "Not Available"
    ensures c.startLink == QuizPath + ToJsString(ExamId(e))
  {
    var canTake := e.status == "active";
    Card(StatusBadge(e.status), canTake, if canTake then "Start Exam" else "Not Available", QuizPath + ToJsString(ExamId(e)))
  }

  /** `displayExams(exams)`: the message for an empty list, else one card per exam in list order. */
  function DisplayExams(exams: seq<Exam>): (v: ExamListView)
    ensures v == NoExamsMessage <==> |exams| == 0
    ensures v.Cards? ==> |v.cards| == |exams| && forall i | 0 <= i < |exams| :: v.cards[i] == ExamCard(exams[i])
  {
    if |exams| == 0 then NoExamsMessage
    else Cards(seq(|exams|, i requires 0 <= i < |exams| => ExamCard(exams[i])))
  }

  /**
   * Every card's start button is enabled exactly for an active exam, wears
   * the Active badge exactly then, and leads to the quiz page for that exam's
   * own id: its `_id` text when that is a non-empty string, otherwise the
   * text of `id`, which is `"undefined"` when both are missing.
   */
  lemma CardsStartTheirOwnExam(exams: seq<Exam>, i: nat)
    requires i < |exams|
    ensures var c := DisplayExams(exams).cards[i];
      && (c.startEnabled <==> exams[i].status == "active")
      && (c.startEnabled <==> c.badge == Active)
      && (exams[i].underscoreId.JsStr? && exams[i].underscoreId.s != "" ==>
            c.startLink == QuizPath + exams[i].underscoreId.s)
      && (!Truthy(exams[i].underscoreId) && exams[i].id == JsUndefined ==>
            c.startLink == QuizPath + "undefined")
  {
    var e := exams[i];
    CanTakeIffActiveBadge(e);
    assert DisplayExams(exams).cards[i] == ExamCard(e);
  }

  /** The filter's test, with `term` already lower-cased by the caller. */
  predicate Matches(e: Exam, term: string)
  {
    Includes(ToLower(e.title), term)
    || (Present(e.description) && Includes(ToLower(e.description.value), term))
  }

  /** `searchExams()`: `allExams.filter(...)` with the lower-cased search text. */
  function SearchExams(exams: seq<Exam>, searchValue: string): (r: seq<Exam>)
    ensures |r| <= |exams|
    ensures forall e | e in r :: e in exams && Matches(e, ToLower(searchValue))
    ensures forall e | e in exams && Matches(e, ToLower(searchValue)) :: e in r
    ensures forall e :: multiset(r)[e] == if Matches(e, ToLower(searchValue)) then multiset(exams)[e] else 0
  {
    Filter(exams, ToLower(searchValue))
  }

  function Filter(exams: seq<Exam>, term: string): (r: seq<Exam>)
    ensures |r| <= |exams|
    ensures forall e | e in r :: e in exams && Matches(e, term)
    ensures forall e | e in exams && Matches(e, term) :: e in r
    ensures forall e :: multiset(r)[e] == if Matches(e, term) then multiset(exams)[e] else 0
  {
    if |exams| == 0 then []
    else
      var rest := Filter(exams[1..], term);
      assert exams == [exams[0]] + exams[1..];
      assert multiset(exams) == multiset{exams[0]} + multiset(exams[1..]);
      if Matches(exams[0], term) then
        assert multiset([exams[0]] + rest) == multiset{exams[0]} + multiset(rest);
        [exams[0]] + rest
      else rest
  }

  /** `sub` is `s` with some elements dropped: each element of `s`, front to back, is kept or dropped. */
  ghost predicate IsSubsequence<T>(sub: seq<T>, s: seq<T>)
    decreases |s|
  {
    if |s| == 0 then sub == []
    else (|sub| > 0 && sub[0] == s[0] && IsSubsequence(sub[1..], s[1..])) || IsSubsequence(sub, s[1..])
  }

  /** The filtered list keeps the exams in the order of the loaded list. */
  lemma {:induction false} FilterIsSubsequence(exams: seq<Exam>, term: string)
    ensures IsSubsequence(Filter(exams, term), exams)
  {
    if |exams| > 0 {
      FilterIsSubsequence(exams[1..], term);
      if Matches(exams[0], term) {
        assert Filter(exams, term)[1..] == Filter(exams[1..], term);
      }
    }
  }

  /**
   * The search relation: an exam is listed iff its title or its description
   * contains the term, ignoring ASCII case; the empty search lists every
   * exam, in order.
   */
  lemma SearchExamsMeaning(exams: seq<Exam>, searchValue: string)
    ensures IsSubsequence(SearchExams(exams, searchValue), exams)
    ensures forall e | e in exams && Includes(e.title, searchValue) :: e in SearchExams(exams, searchValue)
    ensures SearchExams(exams, "") == exams
  {
    FilterIsSubsequence(exams, ToLower(searchValue));
    forall e | e in exams && Includes(e.title, searchValue)
      ensures e in SearchExams(exams, searchValue)
    {
      IncludesToLower(e.title, searchValue);
    }
    FilterEmptyTerm(exams);
  }

  lemma {:induction false} FilterEmptyTerm(exams: seq<Exam>)
    ensures Filter(exams, ToLower("")) == exams
  {
    assert ToLower("") == "";
    if |exams| > 0 {
      IncludesEmpty(ToLower(exams[0].title));
      FilterEmptyTerm(exams[1..]);
    }
  }
}
