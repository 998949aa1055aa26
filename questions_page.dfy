/** The question form of the browser client: the per-type construction of the option list and its
    guards, the choice between creating and updating, and the `currentEditId` edit state. */
module QuestionsPage {
  import opened Common
  import opened Text
  import opened Browser
  import Questions

  /** What the submit handler reads from the form. `scqCorrect` and `tfValue` are the checked
      radio's value (`None` when none is checked); `mcqChecked` holds `Number(v)` of each checked
      box's value, `None` standing for a number that is not an integer (NaN included);
      `saAnswer` and `laAnswer` are `None` when the answer field is not on the page. */
  datatype QuestionForm = QuestionForm(
    subjectValue: string,
    text: string,
    difficulty: string,
    typeValue: string,
    scqInputs: seq<string>,
    scqCorrect: Option<string>,
    mcqInputs: seq<string>,
    mcqChecked: seq<Option<int>>,
    tfValue: Option<string>,
    saAnswer: Option<string>,
    laAnswer: Option<string>)

  /** `typeSel.value || "SCQ"`. */
  function FormType(f: QuestionForm): string {
    if f.typeValue == "" then "SCQ" else f.typeValue
  }

  /** The option inputs' values, each trimmed. */
  function TrimAll(xs: seq<string>): (ts: seq<string>)
    ensures |ts| == |xs| && forall i :: 0 <= i < |xs| ==> ts[i] == JsTrim(xs[i])
  {
    seq(|xs|, i requires 0 <= i < |xs| => JsTrim(xs[i]))
  }

  predicate AnyEmpty(ts: seq<string>) {
    exists i :: 0 <= i < |ts| && ts[i] == ""
  }

  /** Single choice: one option per input, correct exactly at the checked radio's index; blocked on
      an empty text, an empty option or no checked radio. */
  function ScqOptions(f: QuestionForm, text: string): Option<seq<OptionPayload>> {
    var opts := TrimAll(f.scqInputs);
    var idx := ParseInt(FormValue(f.scqCorrect));
    if text == "" || AnyEmpty(opts) || idx.None? then None
    else Some(seq(|opts|, i requires 0 <= i < |opts| => OptionPayload(opts[i], i == idx.value)))
  }

  /** Multiple choice: correct exactly at the checked boxes' indices; blocked on an empty text or
      option, or when no box is checked. */
  function McqOptions(f: QuestionForm, text: string): Option<seq<OptionPayload>> {
    var opts := TrimAll(f.mcqInputs);
    if text == "" || AnyEmpty(opts) then None
    else if |f.mcqChecked| == 0 then None
    else Some(seq(|opts|, i requires 0 <= i < |opts| => OptionPayload(opts[i], Some(i) in f.mcqChecked)))
  }

  /** True/false: the fixed pair "True", "False", marked by the checked radio; blocked when none
      is checked. The question text is not looked at. */
  function TfOptions(f: QuestionForm): Option<seq<OptionPayload>> {
    if f.tfValue.None? || f.tfValue.value == "" then None
    else Some([OptionPayload("True", f.tfValue.value == "true"), OptionPayload("False", f.tfValue.value == "false")])
  }

  /** Short and long answer: the trimmed answer as the one correct option; blocked on an empty
      text or answer. */
  function AnswerOptions(answer: Option<string>, text: string): Option<seq<OptionPayload>> {
    var ans := if answer.Some? then JsTrim(answer.value) else "";
    if text == "" || ans == "" then None else Some([OptionPayload(ans, true)])
  }

  /** The option list for the form's type; `None` when a guard blocks the request or the type is
      not one the client supports. */
  function BuildOptions(f: QuestionForm): Option<seq<OptionPayload>> {
    var text := JsTrim(f.text);
    var t := FormType(f);
    if t == "SCQ" then ScqOptions(f, text)
    else if t == "MCQ" then McqOptions(f, text)
    else if t == "TF" then TfOptions(f)
    else if t == "SA" then AnswerOptions(f.saAnswer, text)
    else if t == "LA" then AnswerOptions(f.laAnswer, text)
    else None
  }

  /** The body `onSubmitQuestion` sends, when it sends one. */
  function BuildPayload(f: QuestionForm): Option<QuestionPayload> {
    var opts := BuildOptions(f);
    if opts.None? then None
    else Some(QuestionPayload(ParseInt(f.subjectValue), JsTrim(f.text), f.difficulty, Some(FormType(f)), opts.value))
  }

  /** Only the five known types are sent, and the server then works with that same type. */
  lemma SentTypeIsKnown(f: QuestionForm)
    requires BuildPayload(f).Some?
    ensures Questions.IsAllowedType(FormType(f))
    ensures Questions.TypeOf(ServerBody(BuildPayload(f).value)) == FormType(f)
  {
  }

  /** The single-choice guard: nothing is sent exactly when the text or an option is empty after
      trimming, or no radio is checked. */
  lemma ScqGuard(f: QuestionForm)
    requires FormType(f) == "SCQ"
    ensures BuildPayload(f).None? <==>
              JsTrim(f.text) == "" || (exists i :: 0 <= i < |f.scqInputs| && JsTrim(f.scqInputs[i]) == "")
              || ParseInt(FormValue(f.scqCorrect)).None?
  {
    var opts := TrimAll(f.scqInputs);
    if exists i :: 0 <= i < |f.scqInputs| && JsTrim(f.scqInputs[i]) == "" {
      var i :| 0 <= i < |f.scqInputs| && JsTrim(f.scqInputs[i]) == "";
      assert opts[i] == "";
    }
  }

  /** A sent single-choice list has one option per input, is correct exactly at the checked index,
      and the server accepts it when the form has the four inputs it requires, the index is one of
      them and no input holds a NUL character. */
  lemma ScqPayloadAccepted(f: QuestionForm)
    requires FormType(f) == "SCQ" && BuildPayload(f).Some?
    requires |f.scqInputs| == 4 && forall i :: 0 <= i < 4 ==> '\0' !in f.scqInputs[i]
    requires 0 <= ParseInt(FormValue(f.scqCorrect)).value < 4
    ensures Questions.OptionErrors("SCQ", ServerBody(BuildPayload(f).value).options.value) == []
  {
    var p := BuildPayload(f).value;
    var k := ParseInt(FormValue(f.scqCorrect)).value;
    OneMarked(p.options, k);
    ServerCorrectCount(p);
    ScqGuard(f);
    ServerSeesNoBlankOption(p, f.scqInputs);
    Questions.OptionErrorsEmptyIff("SCQ", ServerBody(p).options.value);
  }

  /** A checked radio whose value is no input's index gives a list with no correct option, which
      the server rejects. */
  lemma ScqIndexOutOfRangeRejected(f: QuestionForm)
    requires FormType(f) == "SCQ" && BuildPayload(f).Some?
    requires !(0 <= ParseInt(FormValue(f.scqCorrect)).value < |f.scqInputs|)
    ensures Questions.ExactlyOneCorrect("SCQ") in Questions.OptionErrors("SCQ", ServerBody(BuildPayload(f).value).options.value)
  {
    var p := BuildPayload(f).value;
    CountNoneMarked(p.options);
    ServerCorrectCount(p);
  }

  /** A list marked only at index `k` has exactly one correct option. */
  lemma {:induction false} OneMarked(ps: seq<OptionPayload>, k: int)
    requires 0 <= k < |ps| && forall i :: 0 <= i < |ps| ==> ps[i].isCorrect == (i == k)
    ensures Count(ps, PayloadCorrect()) == 1
  {
    if k == 0 {
      CountNoneMarked(ps[1..]);
    } else {
      OneMarked(ps[1..], k - 1);
    }
  }

  lemma {:induction false} CountNoneMarked(ps: seq<OptionPayload>)
    requires forall i :: 0 <= i < |ps| ==> !ps[i].isCorrect
    ensures Count(ps, PayloadCorrect()) == 0
  {
    if ps != [] {
      CountNoneMarked(ps[1..]);
    }
  }

  /** A sent multiple-choice list is correct exactly at the checked indices, and with four NUL-free
      inputs the server accepts it exactly when some checked value is one of those indices. */
  lemma McqPayloadAccepted(f: QuestionForm)
    requires FormType(f) == "MCQ" && BuildPayload(f).Some?
    requires |f.mcqInputs| == 4 && forall i :: 0 <= i < 4 ==> '\0' !in f.mcqInputs[i]
    ensures forall i :: 0 <= i < 4 ==> BuildPayload(f).value.options[i].isCorrect == (Some(i) in f.mcqChecked)
    ensures Questions.OptionErrors("MCQ", ServerBody(BuildPayload(f).value).options.value) == [] <==>
              exists i :: 0 <= i < 4 && Some(i) in f.mcqChecked
  {
    var opts := TrimAll(f.mcqInputs);
    assert BuildOptions(f) == McqOptions(f, JsTrim(f.text));
    var p := BuildPayload(f).value;
    assert p.options == seq(4, i requires 0 <= i < 4 => OptionPayload(opts[i], Some(i) in f.mcqChecked));
    forall i | 0 <= i < 4 ensures JsTrim(f.mcqInputs[i]) != "" {
      assert opts[i] == JsTrim(f.mcqInputs[i]);
    }
    PayloadOptionsAccepted("MCQ", p, f.mcqInputs);
    MarkedAtChecked(p.options, f.mcqChecked);
  }

  /** Options marked exactly at the checked indices have a correct one exactly when some checked
      value is an index. */
  lemma {:induction false} MarkedAtChecked(ps: seq<OptionPayload>, checked: seq<Option<int>>)
    requires forall i :: 0 <= i < |ps| ==> ps[i].isCorrect == (Some(i) in checked)
    ensures Count(ps, PayloadCorrect()) >= 1 <==> exists i :: 0 <= i < |ps| && Some(i) in checked
  {
    if exists i :: 0 <= i < |ps| && Some(i) in checked {
      var i :| 0 <= i < |ps| && Some(i) in checked;
      CountPositive(ps, i);
    } else {
      CountNoneMarked(ps);
    }
  }

  lemma {:induction false} CountPositive(ps: seq<OptionPayload>, k: int)
    requires 0 <= k < |ps| && ps[k].isCorrect
    ensures Count(ps, PayloadCorrect()) >= 1
  {
    if k > 0 {
      CountPositive(ps[1..], k - 1);
    }
  }

  /** A true/false list is the pair "True", "False"; with the radio at "true" or "false" exactly
      one is correct and the server's option checks pass. */
  lemma TfPayloadAccepted(f: QuestionForm)
    requires FormType(f) == "TF" && f.tfValue.Some? && f.tfValue.value in {"true", "false"}
    ensures BuildPayload(f).Some?
    ensures Questions.OptionErrors("TF", ServerBody(BuildPayload(f).value).options.value) == []
  {
    var v := f.tfValue.value;
    var ps := [OptionPayload("True", v == "true"), OptionPayload("False", v == "false")];
    assert BuildOptions(f) == TfOptions(f) == Some(ps);
    var p := BuildPayload(f).value;
    assert Count(ps, PayloadCorrect()) == 1 by {
      if v == "true" { OneMarked(ps, 0); } else { OneMarked(ps, 1); }
    }
    TrueFalseUntrimmed();
    PayloadOptionsAccepted("TF", p, ["True", "False"]);
  }

  /** The fixed texts of the true/false pair have nothing to trim. */
  lemma TrueFalseUntrimmed()
    ensures JsTrim("True") == "True" && JsTrim("False") == "False"
  {
    assert !IsJsSpace('T') && !IsJsSpace('e') && !IsJsSpace('F');
  }

  /** The true/false branch does not look at the question text: a blank text is sent and left to
      the server, which reports `text`. */
  lemma TfSendsBlankText(f: QuestionForm)
    requires FormType(f) == "TF" && f.tfValue == Some("true") && JsTrim(f.text) == ""
    ensures BuildPayload(f).Some?
    ensures Questions.TextError in Questions.FieldErrors(ServerBody(BuildPayload(f).value))
  {
  }

  /** A short or long answer list is the trimmed answer, correct; with a NUL-free answer the
      server's option checks pass. */
  lemma AnswerPayloadAccepted(f: QuestionForm)
    requires FormType(f) in {"SA", "LA"} && BuildPayload(f).Some?
    requires FormType(f) == "SA" ==> f.saAnswer.Some? && '\0' !in f.saAnswer.value
    requires FormType(f) == "LA" ==> f.laAnswer.Some? && '\0' !in f.laAnswer.value
    ensures Questions.OptionErrors(FormType(f), ServerBody(BuildPayload(f).value).options.value) == []
  {
    var p := BuildPayload(f).value;
    var raw := if FormType(f) == "SA" then f.saAnswer.value else f.laAnswer.value;
    ServerCorrectCount(p);
    OneMarked(p.options, 0);
    ServerSeesNoBlankOption(p, [raw]);
    Questions.OptionErrorsEmptyIff(FormType(f), ServerBody(p).options.value);
  }

  /** The short and long answer guard: nothing is sent when the text or the answer is empty. */
  lemma AnswerGuard(f: QuestionForm)
    requires FormType(f) in {"SA", "LA"}
    ensures BuildPayload(f).None? <==>
              JsTrim(f.text) == "" || (if FormType(f) == "SA" then f.saAnswer else f.laAnswer).None?
              || JsTrim((if FormType(f) == "SA" then f.saAnswer else f.laAnswer).value) == ""
  {
  }

  /** A type the client has no editor for sends nothing. */
  lemma UnknownTypeNotSent(f: QuestionForm)
    requires !Questions.IsAllowedType(FormType(f))
    ensures BuildPayload(f).None?
  {
  }

  /** The question view's edit state. */
  class QuestionEditor {
    /** The id of the question being edited, `None` (null) when creating. */
    var currentEditId: Option<int>

    constructor ()
      ensures currentEditId == None
    {
      currentEditId := None;
    }

    /** `setEditMode(on)`: leaving edit mode forgets the question. */
    method SetEditMode(on: bool)
      modifies this
      ensures currentEditId == if on then old(currentEditId) else None
    {
      if !on {
        currentEditId := None;
      }
    }

    /** `cancelEditMode`. */
    method CancelEditMode()
      modifies this
      ensures currentEditId == None
    {
      SetEditMode(false);
    }

    /** The edit click, once the question has been fetched: a loaded question becomes the one
        being edited; a failed fetch changes nothing. */
    method OnQuestionLoaded(resp: Questions.Response)
      modifies this
      ensures currentEditId == if resp.QuestionDetail? then Some(resp.question.q.id) else old(currentEditId)
    {
      if !resp.QuestionDetail? {
        return;
      }
      currentEditId := Some(resp.question.q.id);
      SetEditMode(true);
    }

    /** The delete click, once the server answered: deleting the question being edited leaves
        edit mode, so a later save cannot target it. */
    method OnQuestionDeleted(id: int, resp: Questions.Response)
      modifies this
      ensures currentEditId == if 200 <= resp.Status() < 300 && old(currentEditId) == Some(id) then None else old(currentEditId)
    {
      if !(200 <= resp.Status() < 300) {
        return;
      }
      if currentEditId == Some(id) {
        CancelEditMode();
      }
    }

    /** `onSubmitQuestion`: the request sent (PUT on the edited question, else POST), if a guard
        lets it through; after a successful save the form leaves edit mode. */
    method Submit(f: QuestionForm, saved: bool) returns (req: Option<QuestionRequest>)
      modifies this
      ensures req.None? <==> BuildPayload(f).None?
      ensures req.Some? ==> req.value == QuestionRequest(QuestionTarget(old(currentEditId)).0, QuestionTarget(old(currentEditId)).1, BuildPayload(f).value)
      ensures currentEditId == if req.Some? && saved then None else old(currentEditId)
    {
      var payload := BuildPayload(f);
      if payload.None? {
        return None;
      }
      var target := QuestionTarget(currentEditId);
      req := Some(QuestionRequest(target.0, target.1, payload.value));
      if saved {
        SetEditMode(false);
      }
    }
  }
}
