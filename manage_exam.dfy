/**
 * The teacher's exam page: reading the teacher id out of the stored login
 * token, the exam form's validation and payload, the create-or-edit state of
 * the exam dialog, and the title search over the exam cards.
 */
module ManageExam {
  import opened JsCore

  // ---------------------------------------------------------------------------
  // The login token

  /** The two claims the page reads from the decoded token; an absent claim is undefined. */
  datatype Claims = Claims(teacherId: JsValue, userId: JsValue)

  /** The position of the first `c` in `s`, or `|s|` when there is none. */
  function IndexOf(s: string, c: char): (k: nat)
    ensures k <= |s|
    ensures k < |s| ==> s[k] == c
    ensures forall j | 0 <= j < k :: s[j] != c
  {
    if |s| == 0 then 0 else if s[0] == c then 0 else 1 + IndexOf(s[1..], c)
  }

  /**
   * `token.split('.')[1]`: the text between the first and the second dot.
   * None when there is no token (`localStorage` gave null) or no dot, the
   * two cases where the next call on the value throws.
   */
  function PayloadSegment(token: Option<string>): (seg: Option<string>)
    ensures seg.Some? ==> token.Some? && |seg.value| < |token.value|
    ensures seg.Some? ==> forall i | 0 <= i < |seg.value| :: seg.value[i] != '.'
  {
    if token.None? then None
    else
      var t := token.value;
      var k := IndexOf(t, '.');
      if k == |t| then None
      else
        var rest := t[k + 1..];
        Some(rest[..IndexOf(rest, '.')])
  }

  /** There is a segment exactly when there is a token and it contains a dot. */
  lemma PayloadSegmentExists(token: Option<string>)
    ensures PayloadSegment(token).Some? <==> token.Some? && exists i | 0 <= i < |token.value| :: token.value[i] == '.'
  {
    if token.Some? {
      var t := token.value;
      var k := IndexOf(t, '.');
      if k < |t| {
        assert t[k] == '.';
      }
    }
  }

  /**
   * The segment is a dot-free piece of the token: it follows the first dot
   * and runs to the next dot or to the end.
   */
  lemma PayloadSegmentPlacement(token: Option<string>)
    requires PayloadSegment(token).Some?
    ensures var t, seg, k := token.value, PayloadSegment(token).value, IndexOf(token.value, '.');
      && (forall i | 0 <= i < |seg| :: seg[i] != '.')
      && k < |t| && t[k] == '.'
      && k + 1 + |seg| <= |t|
      && t[k + 1..k + 1 + |seg|] == seg
      && (k + 1 + |seg| == |t| || t[k + 1 + |seg|] == '.')
  {
    var t := token.value;
    var k := IndexOf(t, '.');
    var rest := t[k + 1..];
    var m := IndexOf(rest, '.');
    assert PayloadSegment(token).value == rest[..m];
    assert t[k + 1..k + 1 + m] == rest[..m];
  }

  /** The base64url alphabet's two extra characters mapped to standard base64's. */
  function UrlCharToStandard(c: char): char
  {
    if c == '-' then '+' else if c == '_' then '/' else c
  }

  /** `.replace(/-/g, '+').replace(/_/g, '/')` */
  function Base64UrlToBase64(s: string): (r: string)
    ensures |r| == |s|
    ensures forall i | 0 <= i < |s| :: r[i] == UrlCharToStandard(s[i])
  {
    seq(|s|, i requires 0 <= i < |s| => UrlCharToStandard(s[i]))
  }

  function StandardCharToUrl(c: char): char
  {
    if c == '+' then '-' else if c == '/' then '_' else c
  }

  /** The inverse direction, base64 to base64url. */
  function Base64ToBase64Url(s: string): (r: string)
    ensures |r| == |s|
    ensures forall i | 0 <= i < |s| :: r[i] == StandardCharToUrl(s[i])
  {
    seq(|s|, i requires 0 <= i < |s| => StandardCharToUrl(s[i]))
  }

  /**
   * The mapping leaves no `-` or `_` behind, touches no other character, and
   * is undone by the inverse mapping on any base64url text (one without `+`
   * or `/`); conversely, it undoes the inverse mapping on any text without
   * `-` or `_`.
   */
  lemma Base64UrlRoundTrip(s: string)
    ensures forall i | 0 <= i < |s| :: Base64UrlToBase64(s)[i] != '-' && Base64UrlToBase64(s)[i] != '_'
    ensures forall i | 0 <= i < |s| && s[i] !in "-_" :: Base64UrlToBase64(s)[i] == s[i]
    ensures (forall i | 0 <= i < |s| :: s[i] != '+' && s[i] != '/') ==> Base64ToBase64Url(Base64UrlToBase64(s)) == s
    ensures (forall i | 0 <= i < |s| :: s[i] != '-' && s[i] != '_') ==> Base64UrlToBase64(Base64ToBase64Url(s)) == s
  {
  }

  /**
   * `decodeToken(token)`: `decode` stands for the `atob`, percent-decoding
   * and `JSON.parse` chain applied to the mapped segment (None where any of
   * them throws); every failure makes the result null.
   */
  function DecodeToken(token: Option<string>, decode: string -> Option<Claims>): (r: Option<Claims>)
    ensures PayloadSegment(token).None? ==> r.None?
    ensures PayloadSegment(token).Some? ==> r == decode(Base64UrlToBase64(PayloadSegment(token).value))
  {
    match PayloadSegment(token)
    case None => None
    case Some(seg) => decode(Base64UrlToBase64(seg))
  }

  /** `decodedToken?.teacherId || decodedToken?.userId` */
  function CurrentTeacherId(decoded: Option<Claims>): (id: JsValue)
    ensures decoded.None? ==> id == JsUndefined
    ensures decoded.Some? && Truthy(decoded.value.teacherId) ==> id == decoded.value.teacherId
    ensures decoded.Some? && !Truthy(decoded.value.teacherId) ==> id == decoded.value.userId
    ensures Truthy(id) <==> decoded.Some? && (Truthy(decoded.value.teacherId) || Truthy(decoded.value.userId))
  {
    if decoded.None? then JsUndefined
    else if Truthy(decoded.value.teacherId) then decoded.value.teacherId
    else decoded.value.userId
  }

  // ---------------------------------------------------------------------------
  // The exam form

  datatype ExamForm = ExamForm(titleValue: string, durationValue: string, status: string, description: string)

  datatype ExamFormError =
    | MissingRequired    // 'Please fill in all required fields'
    | NonPositiveDuration  // 'Duration must be greater than 0'
    | NoTeacherId        // 'Unable to create exam: Teacher ID not found. Please login again.'

  datatype ExamPayload = ExamPayload(title: string, duration: int, status: string, description: string, teacherId: JsValue)

  datatype ExamTarget = CreateExam | UpdateExam(id: string)

  datatype ExamRequest = ExamRequest(target: ExamTarget, payload: ExamPayload)

  /**
   * `saveExam()` up to the request. A duration that does not parse, or parses
   * to 0, is a missing field (both are falsy), so only a negative one
   * reaches the duration check.
   */
  function SaveExam(form: ExamForm, teacherId: JsValue, editingId: Option<string>): (r: Result<ExamRequest, ExamFormError>)
    ensures r.Ok? ==> r.value.payload.title != "" && r.value.payload.duration > 0 && Truthy(teacherId)
    ensures r.Ok? ==> (r.value.target == CreateExam <==> !Present(editingId))
  {
    var title := Trim(form.titleValue);
    var duration := ParseInt(form.durationValue);
    if title == "" || duration.None? || duration.value == 0 || form.status == "" then Err(MissingRequired)
    else if duration.value <= 0 then Err(NonPositiveDuration)
    else if !Truthy(teacherId) then Err(NoTeacherId)
    else
      var payload := ExamPayload(title, duration.value, form.status, form.description, teacherId);
      Ok(ExamRequest(if Present(editingId) then UpdateExam(editingId.value) else CreateExam, payload))
  }

  /** The order of the checks, and the request that passes them all. */
  lemma SaveExamOutcome(form: ExamForm, teacherId: JsValue, editingId: Option<string>)
    ensures var r := SaveExam(form, teacherId, editingId);
      && (r == Err(MissingRequired) <==>
            Trim(form.titleValue) == "" || form.status == ""
            || ParseInt(form.durationValue).None? || ParseInt(form.durationValue) == Some(0))
      && (r == Err(NonPositiveDuration) <==>
            Trim(form.titleValue) != "" && form.status != ""
            && ParseInt(form.durationValue).Some? && ParseInt(form.durationValue).value < 0)
      && (r == Err(NoTeacherId) <==>
            Trim(form.titleValue) != "" && form.status != ""
            && ParseInt(form.durationValue).Some? && ParseInt(form.durationValue).value > 0
            && !Truthy(teacherId))
      && (r.Ok? ==>
            && r.value.payload == ExamPayload(Trim(form.titleValue), ParseInt(form.durationValue).value,
                                              form.status, form.description, teacherId)
            && r.value.payload.duration > 0
            && r.value.payload.title != ""
            && (r.value.target.UpdateExam? <==> Present(editingId))
            && (r.value.target.UpdateExam? ==> r.value.target.id == editingId.value))
  {
  }

  /** A duration typed as a decimal number of minutes reaches the payload as that number. */
  lemma SaveExamDuration(form: ExamForm, teacherId: JsValue, editingId: Option<string>, minutes: nat)
    requires form.durationValue == NatToString(minutes)
    ensures SaveExam(form, teacherId, editingId).Ok? ==> SaveExam(form, teacherId, editingId).value.payload.duration == minutes
    ensures minutes == 0 ==> SaveExam(form, teacherId, editingId) == Err(MissingRequired)
  {
    ParseIntOfNatToString(minutes, []);
    assert NatToString(minutes) + [] == NatToString(minutes);
    assert ParseInt(form.durationValue) == Some(minutes);
    var r := SaveExam(form, teacherId, editingId);
    if r.Ok? {
      assert r.value.payload.duration == ParseInt(form.durationValue).value;
    }
  }

  /**
   * The exam dialog's mode, `currentEditingExamId`: None while creating,
   * the id of the exam being edited otherwise.
   */
  class ExamEditor {
    var editingId: Option<string>

    /** Only `editExam` sets an id, and only a non-empty one. */
    ghost predicate Valid()
      reads this
    {
      editingId.None? || editingId.value != ""
    }

    constructor ()
      ensures Valid() && editingId.None?
    {
      editingId := None;
    }

    /** `createNewExam()` */
    method BeginCreate()
      modifies this
      ensures Valid() && editingId.None?
    {
      editingId := None;
    }

    /**
     * `editExam(id)`: an empty id is rejected, and the dialog switches to
     * editing only once the exam was fetched (`fetched`).
     */
    method BeginEdit(id: string, fetched: bool) returns (ok: bool)
      requires Valid()
      modifies this
      ensures Valid()
      ensures ok <==> id != "" && fetched
      ensures ok ==> editingId == Some(id)
      ensures !ok ==> editingId == old(editingId)
    {
      if id == "" {
        return false;
      }
      if !fetched {
        return false;
      }
      editingId := Some(id);
      ok := true;
    }

    /**
     * `saveExam()`: the request is a PUT for the exam being edited and a POST
     * otherwise; `succeeded` is the server's answer. After a successful save
     * the dialog is back in create mode; otherwise the mode is kept.
     */
    method Save(form: ExamForm, teacherId: JsValue, succeeded: bool) returns (r: Result<ExamRequest, ExamFormError>)
      requires Valid()
      modifies this
      ensures Valid()
      ensures r == SaveExam(form, teacherId, old(editingId))
      ensures r.Ok? ==> (r.value.target.UpdateExam? <==> old(editingId).Some?)
      ensures editingId == if r.Ok? && succeeded then None else old(editingId)
    {
      r := SaveExam(form, teacherId, editingId);
      if r.Ok? && succeeded {
        editingId := None;
      }
    }
  }

  // ---------------------------------------------------------------------------
  // Search

  /** A card is shown iff its lower-cased title contains the lower-cased search text. */
  predicate CardVisible(title: string, search: string)
  {
    Includes(ToLower(title), ToLower(search))
  }

  /**
   * An empty search shows every card; a title that contains the search text
   * as typed is shown; and the rule ignores the case of the ASCII letters on
   * either side.
   */
  lemma CardVisibility(title: string, search: string)
    ensures CardVisible(title, "")
    ensures Includes(title, search) ==> CardVisible(title, search)
    ensures CardVisible(ToLower(title), ToLower(search)) <==> CardVisible(title, search)
  {
    IncludesEmpty(ToLower(title));
    assert ToLower("") == "";
    if Includes(title, search) {
      IncludesToLower(title, search);
    }
    ToLowerIdempotent(title);
    ToLowerIdempotent(search);
  }
}
