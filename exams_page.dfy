/** The exam form of the browser client: the count inputs and their total, the request a save
    sends (an automatic exam in create mode, the captured question list in edit mode), and the
    edit state `currentExamEditId` / `currentExamQuestionIds`. */
module ExamsPage {
  import opened Common
  import opened Text
  import opened Store
  import opened ExamRules
  import Exams
  import Router
  import Browser

  /** `parseInt(v || "0", 10) || 0`: an empty, non-numeric (NaN) or zero field reads as 0. */
  function CountValue(v: string): (n: int)
    ensures (forall c :: c in v ==> !IsDigit(c)) ==> n == 0
  {
    ParseIntOfDecimalString(0);
    var parsed := ParseInt(if v == "" then "0" else v);
    if parsed.None? then 0 else parsed.value
  }

  /** A count written in decimal is read back as that count. */
  lemma CountValueOfDecimal(n: nat)
    ensures CountValue(DecimalString(n)) == n
  {
    ParseIntOfDecimalString(n);
  }

  /** `(examNameInput.value || "").trim() || "Automatic exam"`. */
  function ExamName(input: string): (r: string)
    ensures r != []
    ensures JsTrim(input) != [] ==> r == JsTrim(input)
  {
    var t := JsTrim(input);
    if t == "" then "Automatic exam" else t
  }

  /** The name sent is never one the server reads as blank, unless the input held a NUL. */
  lemma ExamNameAccepted(input: string)
    requires '\0' !in input
    ensures PhpTrim(ExamName(input)) != []
  {
    if JsTrim(input) == "" {
      PhpTrimEmptyIff("Automatic exam");
      assert !IsPhpSpace("Automatic exam"[0]);
    } else {
      Browser.NoNulNotBlank(input);
    }
  }

  /** A save request: a new automatic exam (`subjectId` is `None` when `parseInt` gave NaN), or
      the rewrite of the exam being edited with the question ids captured when editing began. */
  datatype ExamRequest =
    | AutoExam(subjectId: Option<int>, name: string, counts: Counts)
    | EditExam(id: int, name: string, questionIds: seq<int>)

  /** The method and the path below `/api` the request goes to. */
  function Target(r: ExamRequest): (string, string) {
    match r
    case AutoExam(_, _, _) => ("POST", "/exams/auto")
    case EditExam(id, _, _) => ("PUT", "/exams/" + Browser.IntString(id))
  }

  /** What createAuto receives: `{subject_id, name, counts: {easy, medium, hard}}`. */
  function AutoBodyOf(r: ExamRequest): AutoBody
    requires r.AutoExam?
  {
    AutoBody(r.subjectId.GetOr(0), Some(r.name), CountsObject(Some(r.counts.easy), Some(r.counts.medium), Some(r.counts.hard), false))
  }

  /** What update receives: `{name, question_ids}` and no `counts`. */
  function UpdateBodyOf(r: ExamRequest): UpdateBody
    requires r.EditExam?
  {
    UpdateBody(Some(r.name), IdsList(r.questionIds), CountsMissing)
  }

  /** The request `createOrUpdateExam` sends from the form's values and the edit state, if its
      guards let one through. */
  function SaveRequest(subjectValue: string, nameValue: string, easy: string, medium: string, hard: string,
                       editId: Option<int>, ids: seq<int>): Option<ExamRequest>
  {
    var subjectId := ParseInt(if subjectValue == "" then "0" else subjectValue);
    var counts := Counts(CountValue(easy), CountValue(medium), CountValue(hard));
    var isEdit := Browser.IsTruthyId(editId);
    if !isEdit && (subjectId.None? || subjectId.value == 0) then None
    else if !isEdit && counts.Total() <= 0 then None
    else if isEdit then Some(EditExam(editId.value, ExamName(nameValue), ids))
    else Some(AutoExam(subjectId, ExamName(nameValue), counts))
  }

  /** In edit mode a request is always sent: the captured ids under the edited exam's id; in create
      mode exactly when the subject is set and the total is positive. */
  lemma SaveRequestGuards(subjectValue: string, nameValue: string, easy: string, medium: string, hard: string,
                          editId: Option<int>, ids: seq<int>)
    ensures var r := SaveRequest(subjectValue, nameValue, easy, medium, hard, editId, ids);
            && (Browser.IsTruthyId(editId) ==> r == Some(EditExam(editId.value, ExamName(nameValue), ids)))
            && (!Browser.IsTruthyId(editId) ==>
                  (r.Some? <==> ParseInt(if subjectValue == "" then "0" else subjectValue).GetOr(0) != 0
                                && CountValue(easy) + CountValue(medium) + CountValue(hard) > 0))
            && (r.Some? && r.value.AutoExam? ==> r.value.subjectId.Some? && r.value.subjectId.value != 0 && r.value.counts.Total() > 0)
  {
  }

  /** An automatic exam request passes createAuto's validation exactly when the subject id is
      positive and no count is negative (the client already ensured a positive total and, for a
      NUL-free name input, a name the server does not read as blank). */
  lemma AutoRequestAccepted(subjectValue: string, nameValue: string, easy: string, medium: string, hard: string,
                            editId: Option<int>, ids: seq<int>)
    requires '\0' !in nameValue
    requires SaveRequest(subjectValue, nameValue, easy, medium, hard, editId, ids).Some?
    requires SaveRequest(subjectValue, nameValue, easy, medium, hard, editId, ids).value.AutoExam?
    ensures var r := SaveRequest(subjectValue, nameValue, easy, medium, hard, editId, ids).value;
            AutoErrors(AutoBodyOf(r)) == [] <==>
              r.subjectId.value > 0 && r.counts.easy >= 0 && r.counts.medium >= 0 && r.counts.hard >= 0
  {
    var r := SaveRequest(subjectValue, nameValue, easy, medium, hard, editId, ids).value;
    var b := AutoBodyOf(r);
    ExamNameAccepted(nameValue);
    AutoErrorsFields(b);
    if AutoErrors(b) == [] {
      assert CountError(Easy) !in AutoErrors(b);
      assert CountError(Medium) !in AutoErrors(b);
      assert CountError(Hard) !in AutoErrors(b);
    } else {
      var f := AutoErrors(b)[0];
      assert f in AutoErrors(b);
      if f.CountError? {
        assert Normalize(b.counts).Get(f.d) < 0;
      }
    }
  }

  /** An edit request with no captured ids (an exam whose questions are all gone) is refused by
      update whatever its name. */
  lemma EmptyResaveRejected(r: ExamRequest)
    requires r.EditExam? && r.questionIds == []
    ensures QuestionIdsOrCountsError in UpdateErrors(UpdateBodyOf(r))
    ensures QuestionIdsError in UpdateErrors(UpdateBodyOf(r))
  {
    UpdateErrorsFields(UpdateBodyOf(r));
  }

  /** An edit request with captured ids and a name the server does not read as blank passes
      update's validation, and takes the explicit-list path. */
  lemma ResaveAccepted(r: ExamRequest)
    requires r.EditExam? && r.questionIds != [] && PhpTrim(r.name) != []
    ensures UpdateErrors(UpdateBodyOf(r)) == [] && !UsesCounts(UpdateBodyOf(r))
  {
    UpdateErrorsFields(UpdateBodyOf(r));
  }

  /** The ids of the rows `show` returned, in order. */
  function ShownIds(rows: seq<ShownQuestion>): (ids: seq<int>)
    ensures |ids| == |rows| && forall k :: 0 <= k < |rows| ==> ids[k] == rows[k].id
  {
    seq(|rows|, k requires 0 <= k < |rows| => rows[k].id)
  }

  /** Saving an edited exam rewrites the content `show` displayed: when every linked question
      still exists and positions run 1..n, update's new link rows (the captured ids, positioned
      from 1) are the old ones. */
  lemma ResaveKeepsLinks(qs: seq<QuestionRow>, ls: seq<Link>)
    requires Contiguous(ls)
    requires forall k :: 0 <= k < |ls| ==> FindQuestion(qs, ls[k].questionId).Some?
    ensures ShownIds(JoinedView(qs, ls)) == LinkedIds(ls)
    ensures Positioned(ShownIds(JoinedView(qs, ls))) == ls
  {
    JoinedViewComplete(qs, ls);
    PositionedOfLinkedIds(ls);
  }

  /** An edit request reaches update with the edited exam's id. */
  lemma EditTargetRoutes(r: ExamRequest)
    requires r.EditExam? && 0 < r.id <= Router.PhpIntMax
    ensures Router.Dispatch(Some(Target(r).0), "/api" + Target(r).1) == Router.ExamUpdate(r.id)
  {
    var n: nat := r.id;
    var ds := DecimalString(n);
    assert Target(r) == ("PUT", "/exams/" + ds);
    assert "/api" + ("/exams/" + ds) == "/api/exams/" + ds;
    assert Router.IdPath("/api/exams/", n, false) == "/api/exams/" + ds;
    Router.ExamIdRoutes(n, false, "PUT");
  }

  /** A create request reaches createAuto. */
  lemma AutoTargetRoutes(r: ExamRequest)
    requires r.AutoExam?
    ensures Router.Dispatch(Some(Target(r).0), "/api" + Target(r).1) == Router.ExamsCreateAuto
  {
    assert Target(r) == ("POST", "/exams/auto");
    assert "/api" + "/exams/auto" == "/api/exams/auto";
    Router.LiteralRoutes();
  }

  /** The id read from an exam card's `data-id`; a card whose id parses to NaN or 0 is ignored. */
  function CardId(dataId: string): (r: Option<int>)
    ensures r.Some? ==> r.value != 0 && r == ParseInt(dataId)
  {
    ParseIntOfDecimalString(0);
    var id := ParseInt(if dataId == "" then "0" else dataId);
    if id.None? || id.value == 0 then None else id
  }

  /** A card rendered with a positive exam id yields that id. */
  lemma CardIdOfExam(n: nat)
    requires n > 0
    ensures CardId(DecimalString(n)) == Some(n)
  {
    ParseIntOfDecimalString(n);
  }

  /** When every shown question is easy, medium or hard, the three tallies add up to the number of
      questions. */
  lemma {:induction false} TallyPartition(rows: seq<ShownQuestion>)
    requires forall k :: 0 <= k < |rows| ==> rows[k].difficulty in {"easy", "medium", "hard"}
    ensures Count(rows, RowHasDifficulty("easy")) + Count(rows, RowHasDifficulty("medium"))
            + Count(rows, RowHasDifficulty("hard")) == |rows|
  {
    if rows != [] {
      TallyPartition(rows[1..]);
    }
  }

  /** The `forEach` of `startExamEdit`: each question whose difficulty is easy, medium or hard
      adds one to that key's count; any other difficulty is skipped. */
  method TallyDifficulties(qs: seq<ShownQuestion>) returns (easy: nat, medium: nat, hard: nat)
    ensures easy == Count(qs, RowHasDifficulty("easy"))
    ensures medium == Count(qs, RowHasDifficulty("medium"))
    ensures hard == Count(qs, RowHasDifficulty("hard"))
  {
    easy, medium, hard := 0, 0, 0;
    for k := 0 to |qs|
      invariant easy == Count(qs[..k], RowHasDifficulty("easy"))
      invariant medium == Count(qs[..k], RowHasDifficulty("medium"))
      invariant hard == Count(qs[..k], RowHasDifficulty("hard"))
    {
      assert qs[..k + 1] == qs[..k] + [qs[k]];
      CountAppend(qs[..k], [qs[k]], RowHasDifficulty("easy"));
      CountAppend(qs[..k], [qs[k]], RowHasDifficulty("medium"));
      CountAppend(qs[..k], [qs[k]], RowHasDifficulty("hard"));
      var d := qs[k].difficulty;
      if d == "easy" {
        easy := easy + 1;
      } else if d == "medium" {
        medium := medium + 1;
      } else if d == "hard" {
        hard := hard + 1;
      }
    }
    assert qs[..|qs|] == qs;
  }

  /** The exam view's form and edit state. The `default` values are what `form.reset()` restores. */
  class ExamEditor {
    var currentExamEditId: Option<int>
    var currentExamQuestionIds: seq<int>
    var nameValue: string
    var easyValue: string
    var mediumValue: string
    var hardValue: string
    /** The number `examTotal` shows. */
    var totalShown: int
    const defaultName: string
    const defaultEasy: string
    const defaultMedium: string
    const defaultHard: string

    /** The total shown is the sum of the three count fields as `updateExamTotal` reads them. */
    predicate Valid()
      reads this
    {
      totalShown == CountValue(easyValue) + CountValue(mediumValue) + CountValue(hardValue)
    }

    /** `initExamView`: the form at its defaults, not editing, total computed. */
    constructor (name: string, easy: string, medium: string, hard: string)
      ensures Valid()
      ensures currentExamEditId == None && currentExamQuestionIds == []
      ensures nameValue == name && easyValue == easy && mediumValue == medium && hardValue == hard
      ensures defaultName == name && defaultEasy == easy && defaultMedium == medium && defaultHard == hard
    {
      currentExamEditId := None;
      currentExamQuestionIds := [];
      nameValue, easyValue, mediumValue, hardValue := name, easy, medium, hard;
      defaultName, defaultEasy, defaultMedium, defaultHard := name, easy, medium, hard;
      totalShown := CountValue(easy) + CountValue(medium) + CountValue(hard);
    }

    /** `updateExamTotal`. */
    method UpdateExamTotal()
      modifies this
      ensures Valid()
      ensures currentExamEditId == old(currentExamEditId) && currentExamQuestionIds == old(currentExamQuestionIds)
      ensures nameValue == old(nameValue) && easyValue == old(easyValue) && mediumValue == old(mediumValue) && hardValue == old(hardValue)
    {
      totalShown := CountValue(easyValue) + CountValue(mediumValue) + CountValue(hardValue);
    }

    /** Typing into a count field (its `input` listener recomputes the total). */
    method EditCount(d: Difficulty, v: string)
      modifies this
      ensures Valid()
      ensures easyValue == (if d == Easy then v else old(easyValue))
      ensures mediumValue == (if d == Medium then v else old(mediumValue))
      ensures hardValue == (if d == Hard then v else old(hardValue))
      ensures currentExamEditId == old(currentExamEditId) && currentExamQuestionIds == old(currentExamQuestionIds)
      ensures nameValue == old(nameValue)
    {
      match d {
        case Easy => easyValue := v;
        case Medium => mediumValue := v;
        case Hard => hardValue := v;
      }
      UpdateExamTotal();
    }

    /** `startExamEdit`, once GET /exams/{id} answered: a loaded exam becomes the one being edited,
        its question ids are captured in order, its name fills the name field and each count field
        shows how many of its questions have that difficulty; any other answer changes nothing. */
    method StartExamEdit(resp: Exams.Response)
      requires Valid()
      modifies this
      ensures Valid()
      ensures !resp.ExamDetail? ==>
                currentExamEditId == old(currentExamEditId) && currentExamQuestionIds == old(currentExamQuestionIds)
                && nameValue == old(nameValue) && easyValue == old(easyValue)
                && mediumValue == old(mediumValue) && hardValue == old(hardValue)
      ensures resp.ExamDetail? ==>
                currentExamEditId == Some(resp.exam.id) && currentExamQuestionIds == ShownIds(resp.questions)
                && nameValue == resp.exam.name
                && easyValue == DecimalString(Count(resp.questions, RowHasDifficulty("easy")))
                && mediumValue == DecimalString(Count(resp.questions, RowHasDifficulty("medium")))
                && hardValue == DecimalString(Count(resp.questions, RowHasDifficulty("hard")))
      ensures resp.ExamDetail? ==>
                totalShown == Count(resp.questions, RowHasDifficulty("easy")) + Count(resp.questions, RowHasDifficulty("medium"))
                              + Count(resp.questions, RowHasDifficulty("hard"))
    {
      if !resp.ExamDetail? {
        return;
      }
      var qs := resp.questions;
      var ids := ShownIds(qs);
      var easy, medium, hard := TallyDifficulties(qs);
      currentExamEditId := Some(resp.exam.id);
      currentExamQuestionIds := ids;
      nameValue := resp.exam.name;
      ShowCounts(easy, medium, hard);
    }

    /** Writing three counts into the count fields, in decimal, and recomputing the total: the
        total shown is their sum. */
    method ShowCounts(easy: nat, medium: nat, hard: nat)
      modifies this
      ensures Valid()
      ensures easyValue == DecimalString(easy) && mediumValue == DecimalString(medium) && hardValue == DecimalString(hard)
      ensures totalShown == easy + medium + hard
      ensures currentExamEditId == old(currentExamEditId) && currentExamQuestionIds == old(currentExamQuestionIds)
      ensures nameValue == old(nameValue)
    {
      CountValueOfDecimal(easy);
      CountValueOfDecimal(medium);
      CountValueOfDecimal(hard);
      easyValue, mediumValue, hardValue := DecimalString(easy), DecimalString(medium), DecimalString(hard);
      UpdateExamTotal();
    }

    /** `cancelExamEditMode`: nothing is being edited, no ids are captured, the form is back at
        its defaults and the total agrees with them. */
    method CancelExamEditMode()
      modifies this
      ensures Valid()
      ensures currentExamEditId == None && currentExamQuestionIds == []
      ensures nameValue == defaultName && easyValue == defaultEasy && mediumValue == defaultMedium && hardValue == defaultHard
    {
      currentExamEditId := None;
      currentExamQuestionIds := [];
      nameValue, easyValue, mediumValue, hardValue := defaultName, defaultEasy, defaultMedium, defaultHard;
      UpdateExamTotal();
    }

    /** The delete button of a card, once DELETE /exams/{id} answered: when the deleted exam is the
        one being edited, edit mode ends; a failed delete or another exam changes nothing. */
    method OnExamDeleted(id: int, resp: Exams.Response)
      requires Valid()
      modifies this
      ensures Valid()
      ensures var ok := 200 <= resp.Status() < 300 || resp.Status() == 204;
              if ok && old(currentExamEditId) == Some(id) then
                currentExamEditId == None && currentExamQuestionIds == [] && nameValue == defaultName
                && easyValue == defaultEasy && mediumValue == defaultMedium && hardValue == defaultHard
              else
                currentExamEditId == old(currentExamEditId) && currentExamQuestionIds == old(currentExamQuestionIds)
                && nameValue == old(nameValue) && easyValue == old(easyValue)
                && mediumValue == old(mediumValue) && hardValue == old(hardValue)
    {
      if !(200 <= resp.Status() < 300) && resp.Status() != 204 {
        return;
      }
      if currentExamEditId == Some(id) {
        CancelExamEditMode();
      }
    }

    /** `createOrUpdateExam`: the request sent, if any; after a successful save an edit ends and a
        create clears the name field. */
    method CreateOrUpdateExam(subjectValue: string, saved: bool) returns (req: Option<ExamRequest>)
      requires Valid()
      modifies this
      ensures Valid()
      ensures req == SaveRequest(subjectValue, old(nameValue), old(easyValue), old(mediumValue), old(hardValue),
                                 old(currentExamEditId), old(currentExamQuestionIds))
      ensures req.Some? && saved && req.value.EditExam? ==>
                currentExamEditId == None && currentExamQuestionIds == [] && nameValue == defaultName
                && easyValue == defaultEasy && mediumValue == defaultMedium && hardValue == defaultHard
      ensures req.Some? && saved && req.value.AutoExam? ==>
                nameValue == "" && currentExamEditId == old(currentExamEditId) && currentExamQuestionIds == old(currentExamQuestionIds)
                && easyValue == old(easyValue) && mediumValue == old(mediumValue) && hardValue == old(hardValue)
      ensures !(req.Some? && saved) ==>
                currentExamEditId == old(currentExamEditId) && currentExamQuestionIds == old(currentExamQuestionIds)
                && nameValue == old(nameValue) && easyValue == old(easyValue)
                && mediumValue == old(mediumValue) && hardValue == old(hardValue)
    {
      var subjectId := ParseInt(if subjectValue == "" then "0" else subjectValue);
      var name := ExamName(nameValue);
      var counts := Counts(CountValue(easyValue), CountValue(mediumValue), CountValue(hardValue));
      var isEdit := Browser.IsTruthyId(currentExamEditId);
      if !isEdit && (subjectId.None? || subjectId.value == 0) {
        return None;
      }
      if !isEdit && counts.Total() <= 0 {
        return None;
      }
      if isEdit {
        req := Some(EditExam(currentExamEditId.value, name, currentExamQuestionIds));
      } else {
        req := Some(AutoExam(subjectId, name, counts));
      }
      if !saved {
        return;
      }
      if isEdit {
        CancelExamEditMode();
      } else {
        nameValue := "";
      }
    }
  }
}
